/**
  End to end: what the three drivers return for a relation of well-formed heap pages that store known
  tuples, and exactly when the peer-to-peer driver returns anything.
*/
module Agreement {
  import opened Machine
  import opened Tuples
  import opened Drivers
  import opened P2PDriver
  import L = Layout
  import H = HeapPage
  import K = Kernel
  import P = Packer
  import HW = HwDrivers
  import R = Ring
  import W = HeapLayout
  import Q = Query6

  /** Well-formed heap pages whose items, in order, are the stored forms of `ts`. */
  ghost predicate Stores(rel: seq<seq<byte>>, ts: seq<L.Tuple>) {
    (forall b :: 0 <= b < |rel| ==> H.WellFormedPage(rel[b])) && Stored(AllItems(rel), ts)
  }

  // ----- every item fits and is delivered -----

  lemma {:induction false} ItemWithin(items: seq<seq<byte>>, i: nat)
    requires i < |items|
    ensures |items[i]| <= |H.Concat(items)|
  {
    if i > 0 {
      ItemWithin(items[1..], i - 1);
    }
  }

  lemma WellFormedItem(page: seq<byte>, i: nat)
    requires H.WellFormedPage(page) && i < |H.Items(page, 0)|
    ensures |H.Items(page, 0)[i]| <= 8168
  {
    hide H.Items;
    H.WellFormedFits(page);
    ItemWithin(H.Items(page, 0), i);
  }

  lemma {:induction false} ShortItems(rel: seq<seq<byte>>, blk: nat)
    requires forall b :: 0 <= b < |rel| ==> H.WellFormedPage(rel[b])
    ensures forall i :: 0 <= i < |P.ItemsFrom(rel, blk)| ==> |P.ItemsFrom(rel, blk)[i]| <= 8168
    decreases |rel| - blk
  {
    hide H.Items, H.WellFormedPage;
    if blk < |rel| {
      ShortItems(rel, blk + 1);
      var own, rest := H.Items(rel[blk], 0), P.ItemsFrom(rel, blk + 1);
      forall i | 0 <= i < |own|
        ensures |own[i]| <= 8168
      {
        WellFormedItem(rel[blk], i);
      }
    }
  }

  /** Nothing is too large for a page, so the packer delivers every item. */
  lemma AllDelivered(rel: seq<seq<byte>>)
    requires forall b :: 0 <= b < |rel| ==> H.WellFormedPage(rel[b])
    ensures Delivered(rel) == AllItems(rel)
  {
    hide H.WellFormedPage, P.ItemsFrom, P.Packable;
    ShortItems(rel, 0);
    P.PackableExactly(AllItems(rel));
  }

  // ----- extraction loses nothing -----

  lemma AllExtracted(page: seq<byte>)
    requires H.WellFormedPage(page)
    ensures K.Extracted(page) == H.Items(page, 0)
  {
    hide H.Items, H.WellFormedPage;
    H.WellFormedFits(page);
  }

  lemma {:induction false} NativeThenRest(rel: seq<seq<byte>>, n: nat)
    requires n <= |rel| && forall b :: 0 <= b < |rel| ==> H.WellFormedPage(rel[b])
    ensures NativeItems(rel, n) + P.ItemsFrom(rel, n) == AllItems(rel)
  {
    hide H.Items, H.WellFormedPage, K.Extracted;
    if n > 0 {
      NativeThenRest(rel, n - 1);
      AllExtracted(rel[n - 1]);
    }
  }

  /** In-kernel extraction and repacking deliver the same items in the same order. */
  lemma SameItems(rel: seq<seq<byte>>)
    requires forall b :: 0 <= b < |rel| ==> H.WellFormedPage(rel[b])
    ensures NativeItems(rel, |rel|) == AllItems(rel)
  {
    hide H.WellFormedPage, NativeItems;
    NativeThenRest(rel, |rel|);
  }

  lemma {:induction false} PageItemsOk(rel: seq<seq<byte>>, blk: nat, b: nat)
    requires blk <= b < |rel| && ItemsOk(P.ItemsFrom(rel, blk))
    ensures ItemsOk(H.Items(rel[b], 0))
    decreases b - blk
  {
    hide H.Items, ItemOk;
    var own, rest := H.Items(rel[blk], 0), P.ItemsFrom(rel, blk + 1);
    var all := P.ItemsFrom(rel, blk);
    assert all == own + rest;
    if b == blk {
      forall i | 0 <= i < |own|
        ensures ItemOk(own[i])
      {
        assert own[i] == all[i];
      }
    } else {
      forall i | 0 <= i < |rest|
        ensures ItemOk(rest[i])
      {
        assert rest[i] == all[|own| + i];
      }
      PageItemsOk(rel, blk + 1, b);
    }
  }

  /** Stored tuples meet what both kinds of driver require of a relation. */
  lemma StoresIsOk(rel: seq<seq<byte>>, ts: seq<L.Tuple>)
    requires Stores(rel, ts)
    ensures RelationOk(rel) && PagesExtractable(rel)
    ensures SumItems(Delivered(rel)) == SumItems(NativeItems(rel, |rel|)) == L.TotalRevenue(ts)
    ensures |Delivered(rel)| == |ts|
  {
    hide ItemsOk, SumItems, NativeItems, P.ItemsFrom, P.Packable, H.Items, K.Extracted, H.PageReadable;
    hide L.WellFormedTuple, L.Encode;
    SumIsRevenue(AllItems(rel), ts);
    AllDelivered(rel);
    SameItems(rel);
    forall b | 0 <= b < |rel|
      ensures ItemsOk(K.Extracted(rel[b]))
    {
      AllExtracted(rel[b]);
      PageItemsOk(rel, 0, b);
    }
  }

  // ----- the drivers on known tuples -----

  /** The software driver returns the revenue of the stored tuples. */
  method QueryInSoftware(rel: seq<seq<byte>>, pages: nat, ghost ts: seq<L.Tuple>) returns (q6Sum: int, nTups: nat)
    requires Stores(rel, ts) && pages > 0
    ensures q6Sum == Int64(L.TotalRevenue(ts)) && nTups == |ts|
  {
    hide Stores, RelationOk, Delivered, SumItems;
    StoresIsOk(rel, ts);
    q6Sum, nTups := RunSw(rel, pages);
  }

  /**
    So does the hardware driver, for every completion order, exactly when the queue accepts the four calls for every
    block that it fills.
  */
  method QueryInHardware(rel: seq<seq<byte>>, group: nat, pages: nat, accepts: nat -> bool, ghost ts: seq<L.Tuple>)
    returns (status: bool, q6Sum: int)
    requires Stores(rel, ts) && group > 0 && pages > 0
    ensures status <==> forall c: nat :: c < 4 * HW.BlocksFor(AllItems(rel), pages) ==> accepts(c)
    ensures status ==> q6Sum == Int64(L.TotalRevenue(ts))
  {
    hide Stores, RelationOk, Delivered, SumItems, HW.BlocksFor, R.Accepted;
    StoresIsOk(rel, ts);
    R.AcceptedMeans(accepts, R.CallsFor(false, HW.BlocksFor(AllItems(rel), pages)));
    status, q6Sum := HW.RunHw(rel, group, pages, accepts);
  }

  /**
    The peer-to-peer driver: when the queue refuses one of the three calls for a block that it comes to, it fails in
    that. Otherwise it returns the revenue of the stored tuples for relations of fewer than 262144 pages other than
    131072, or of 131072 with an empty second segment file; for all others the server aborts it in a read. What the
    pages hold makes no difference.
  */
  method QueryPeerToPeer(rel: seq<seq<byte>>, emptySegment: bool, group: nat, accepts: nat -> bool,
                         ghost ts: seq<L.Tuple>)
    returns (outcome: Outcome)
    requires Stores(rel, ts) && |rel| < TWO31 && group > 0
    ensures var n := |rel|;
            var allRead := n < 262144 && (n == 131072 ==> emptySegment);
            var blocks := if allRead then n / 256 + 1 else if n < 262144 then n / 256 else 1024;
            outcome == if exists c: nat :: c < 3 * blocks && !accepts(c) then EnqueueFailed
                       else if allRead then Sum(Int64(L.TotalRevenue(ts)))
                       else ReadError
  {
    hide Stores, PagesExtractable, RelationOk, Delivered, SumItems, NativeItems, Int64, R.Accepted;
    StoresIsOk(rel, ts);
    R.AcceptedMeans(accepts, R.CallsFor(true, BlocksEnqueued(|rel|, emptySegment)));
    outcome := RunHwNative(rel, emptySegment, group, accepts);
  }

  // ----- from written rows to the query's answer -----

  function AllData(pages: seq<seq<W.Item>>): seq<seq<byte>> {
    if pages == [] then [] else W.Datas(pages[0]) + AllData(pages[1..])
  }

  /** Pages that hold items at places of their own, which are, page after page, the stored forms of the rows. */
  ghost predicate Written(rel: seq<seq<byte>>, pages: seq<seq<W.Item>>, lines: seq<Q.Line>) {
    && |rel| == |pages| && (forall b :: 0 <= b < |rel| ==> W.Holds(rel[b], pages[b]))
    && |AllData(pages)| == |lines|
    && forall k :: 0 <= k < |lines| ==> Q.ValidLine(lines[k]) && AllData(pages)[k] == Q.Stored(lines[k])
  }

  lemma {:induction false} HeldRelation(rel: seq<seq<byte>>, pages: seq<seq<W.Item>>, blk: nat)
    requires |rel| == |pages| && blk <= |rel| && forall b :: 0 <= b < |rel| ==> W.Holds(rel[b], pages[b])
    requires forall k :: 0 <= k < |AllData(pages[blk..])| ==> AllData(pages[blk..])[k] != []
    ensures P.ItemsFrom(rel, blk) == AllData(pages[blk..])
    decreases |rel| - blk
  {
    hide W.Holds, H.Items, H.NonEmpty;
    if blk < |rel| {
      var own, rest := W.Datas(pages[blk]), AllData(pages[blk + 1..]);
      assert pages[blk..][1..] == pages[blk + 1..];
      assert AllData(pages[blk..]) == own + rest;
      forall k | 0 <= k < |rest|
        ensures rest[k] != []
      {
        assert rest[k] == (own + rest)[|own| + k];
      }
      forall k | 0 <= k < |own|
        ensures own[k] != []
      {
        assert own[k] == (own + rest)[k];
      }
      HeldRelation(rel, pages, blk + 1);
      W.HeldItems(rel[blk], pages[blk]);
      W.AllNonEmpty(own);
    }
  }

  /** Such a relation stores the rows, and what the drivers return for it is the query's answer, in ten-thousandths. */
  lemma WrittenStores(rel: seq<seq<byte>>, pages: seq<seq<W.Item>>, lines: seq<Q.Line>)
    requires Written(rel, pages, lines)
    ensures Stores(rel, Q.Tuples(lines)) && L.AllWellFormed(Q.Tuples(lines))
    ensures L.TotalRevenue(Q.Tuples(lines)) as real == 10000.0 * Q.Answer(lines)
  {
    hide W.Holds, Q.ValidLine, Q.Stored, Q.Answer, Q.AsTuple, L.Decimal15, L.Shaped, L.Encode, L.TotalRevenue;
    hide H.WellFormedPage, P.ItemsFrom;
    Q.TotalIsAnswer(lines);
    var ts := Q.Tuples(lines);
    forall k | 0 <= k < |lines|
      ensures L.WellFormedTuple(ts[k]) && AllData(pages)[k] == L.Encode(ts[k]) && AllData(pages)[k] != []
    {
      Q.StoredIsEncoded(lines[k]);
      Q.StoredNotEmpty(lines[k]);
    }
    assert pages[0..] == pages;
    HeldRelation(rel, pages, 0);
    forall b | 0 <= b < |rel|
      ensures H.WellFormedPage(rel[b])
    {
      W.HeldIsWellFormed(rel[b], pages[b]);
    }
  }

  /**
    Query 6 on rows written to heap pages, by all three drivers. Each that finishes returns the exact answer, in
    ten-thousandths and wrapped once; and the condition under which it finishes is on the calls and the page count
    alone.
  */
  method AnswerThreeTimes(rel: seq<seq<byte>>, emptySegment: bool, group: nat, blockPages: nat, accepts: nat -> bool,
                          ghost pages: seq<seq<W.Item>>, ghost lines: seq<Q.Line>)
    returns (software: int, nTups: nat, status: bool, hardware: int, peerToPeer: Outcome, ghost answer: int)
    requires Written(rel, pages, lines) && |rel| < TWO31 && group > 0 && blockPages > 0
    ensures answer as real == 10000.0 * Q.Answer(lines)
    ensures software == Int64(answer) && nTups == |lines|
    ensures status <==> forall c: nat :: c < 4 * HW.BlocksFor(AllItems(rel), blockPages) ==> accepts(c)
    ensures status ==> hardware == Int64(answer)
    ensures var n := |rel|;
            var allRead := n < 262144 && (n == 131072 ==> emptySegment);
            var blocks := if allRead then n / 256 + 1 else if n < 262144 then n / 256 else 1024;
            peerToPeer == if exists c: nat :: c < 3 * blocks && !accepts(c) then EnqueueFailed
                          else if allRead then Sum(Int64(answer))
                          else ReadError
  {
    hide W.Holds, AllData, Q.ValidLine, Q.Stored, Stores, Q.Answer, L.TotalRevenue, Int64, HW.BlocksFor;
    WrittenStores(rel, pages, lines);
    ghost var ts := Q.Tuples(lines);
    answer := L.TotalRevenue(ts);
    software, nTups := QueryInSoftware(rel, blockPages, ts);
    status, hardware := QueryInHardware(rel, group, blockPages, accepts, ts);
    peerToPeer := QueryPeerToPeer(rel, emptySegment, group, accepts, ts);
  }
}
