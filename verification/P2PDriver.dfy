/**
  The peer-to-peer driver: raw heap pages, read a block at a time from the relation's segment files and
  zero-filled at the end, through the buffer ring. A read of a segment that does not exist is an error.
*/
module P2PDriver {
  import opened Machine
  import opened Tuples
  import HW = HwDrivers
  import H = HeapPage
  import K = Kernel
  import F = FlowWrap
  import P = Packer
  import R = Ring

  const BLK_PAGES: nat := 256
  const XQL6_BLK_SZ: nat := 0x20_0000
  /** Pages in a segment file. */
  const RELSEG_SIZE: nat := 131072
  /** Pages that the driver can address before its 32-bit block offset turns negative. */
  const REACHABLE: nat := 262144

  /** Every heap page can be read, and every item that the kernel extracts is one readable tuple. */
  ghost predicate PagesExtractable(rel: seq<seq<byte>>) {
    forall b :: 0 <= b < |rel| ==> H.PageReadable(rel[b]) && ItemsOk(K.Extracted(rel[b]))
  }

  /** The page number of block blkId, as the driver computes it: a product of C ints, then an unsigned block number. */
  function FirstPage(blkId: nat): nat {
    UInt32(Int32(blkId * XQL6_BLK_SZ) / PAGE_SZ)
  }

  lemma FirstPageExactly(blkId: nat)
    requires blkId <= 1024
    ensures if blkId < 1024 then FirstPage(blkId) == BLK_PAGES * blkId else FirstPage(blkId) >= TWO31
  {
  }

  /** Page p of the relation, and zeros behind its end. */
  function PageOrZero(rel: seq<seq<byte>>, p: nat): seq<byte> {
    if p < |rel| then rel[p] else seq(PAGE_SZ, _ => 0)
  }

  /** The pages of one block, one after the other. */
  ghost predicate RawBlock(buf: seq<byte>, rel: seq<seq<byte>>, first: nat, pages: nat) {
    forall k: nat :: k < pages ==> H.BlockPage(buf, k) == PageOrZero(rel, first + k)
  }

  /** The items that the kernel extracts from the first n pages. */
  function NativeItems(rel: seq<seq<byte>>, n: nat): seq<seq<byte>>
    requires n <= |rel|
  {
    if n == 0 then [] else NativeItems(rel, n - 1) + K.Extracted(rel[n - 1])
  }

  /** A native page, tuples extracted in the kernel, is worth its extracted items. */
  lemma NativePageSum(page: seq<byte>)
    requires H.PageReadable(page) && ItemsOk(K.Extracted(page))
    ensures K.PageOk(true, page) && K.PageSum(true, page) == SumItems(K.Extracted(page))
  {
    hide ItemsOk, H.PageReadable, Lineitem.SumRows, Lineitem.RowsOk, Lineitem.Rows, RowsOf, H.Items, H.Fit, H.Concat;
    ReadableIsWhole(page);
    var items := K.Extracted(page);
    H.FitBounds(H.Items(page, 0), 0);
    var data := H.Concat(items);
    ParseItems(items, page[|data|..]);
  }

  lemma ReadableIsWhole(page: seq<byte>)
    requires H.PageReadable(page)
    ensures |page| == PAGE_SZ
  {
  }

  /** An all-zero page holds nothing. */
  lemma ZeroPage(page: seq<byte>)
    requires |page| == PAGE_SZ && forall i :: 0 <= i < PAGE_SZ ==> page[i] == 0
    ensures H.PageReadable(page) && K.Extracted(page) == []
  {
    H.PruneWordZero(page);
    H.ItemsStep(page, 0);
    H.ItemsStep(page, 1);
  }

  lemma RawPageSum(rel: seq<seq<byte>>, p: nat)
    requires PagesExtractable(rel)
    ensures K.PageOk(true, PageOrZero(rel, p))
    ensures K.PageSum(true, PageOrZero(rel, p))
        == SumItems(NativeItems(rel, Min(p + 1, |rel|))) - SumItems(NativeItems(rel, Min(p, |rel|)))
  {
    hide ItemsOk, ItemOk, H.PageReadable, K.Extracted, K.PageOk, K.PageSum, SumItems;
    if p < |rel| {
      NativePageSum(rel[p]);
      SumItemsAppend(NativeItems(rel, p), K.Extracted(rel[p]));
    } else {
      var page := PageOrZero(rel, p);
      ZeroPage(page);
      assert ItemsOk([]) by {
        NothingOk();
      }
      NativePageSum(page);
      SumNone();
    }
  }

  lemma NothingOk()
    ensures ItemsOk([])
  {
  }

  /** A raw block is worth the pages of the relation that it covers; the zero fill adds nothing. */
  lemma {:induction false} RawBlockSum(buf: seq<byte>, rel: seq<seq<byte>>, first: nat, n: nat)
    requires PagesExtractable(rel) && RawBlock(buf, rel, first, n)
    ensures F.PagesOk(true, F.BlockPages(buf, n))
    ensures F.BlockSum(true, buf, n)
        == SumItems(NativeItems(rel, Min(first + n, |rel|))) - SumItems(NativeItems(rel, Min(first, |rel|)))
  {
    hide PagesExtractable, PageOrZero, F.PagesOk, F.BlockSum, K.PageOk, K.PageSum, SumItems, NativeItems, H.BlockPage;
    if n == 0 {
      F.BlockSumStep(true, buf, 0);
      F.PagesOkStep(true, buf, 0);
    } else {
      RawBlockSum(buf, rel, first, n - 1);
      RawPageSum(rel, first + n - 1);
      F.BlockSumStep(true, buf, n - 1);
      F.PagesOkStep(true, buf, n - 1);
    }
  }

  // ----- reading a block -----

  lemma KeepRaw(before: seq<byte>, after: seq<byte>, rel: seq<seq<byte>>, first: nat, n: nat)
    requires RawBlock(before, rel, first, n) && |before| == |after| && PAGE_SZ * n + PAGE_SZ <= |after|
    requires after[..PAGE_SZ * n] == before[..PAGE_SZ * n]
    requires after[PAGE_SZ * n..PAGE_SZ * n + PAGE_SZ] == PageOrZero(rel, first + n)
    ensures RawBlock(after, rel, first, n + 1)
  {
    hide PageOrZero;
    forall k: nat | k < n
      ensures H.BlockPage(after, k) == H.BlockPage(before, k)
    {
      H.SamePage(before, after, k, n);
    }
  }

  /**
    A relation of n pages has a first segment file, one for every further RELSEG_SIZE pages begun, and
    behind a full last one possibly an empty one, left by a truncation.
  */
  predicate SegmentExists(n: nat, emptySegment: bool, seg: nat) {
    seg == 0 || seg * RELSEG_SIZE < n || (emptySegment && seg * RELSEG_SIZE == n)
  }

  /** How many pages a read of one block finds from page `first` on. */
  function PagesFound(n: nat, first: nat): nat {
    Min(BLK_PAGES, Max(n - first, 0))
  }

  /**
    The server's read of one block: opens the segment of its first page, which is an error if there is no
    such file, and reads up to the end of the file.
  */
  method MdReadBigd(rel: seq<seq<byte>>, emptySegment: bool, first: nat, buf: array<byte>)
    returns (ok: bool, nbytes: nat)
    requires buf.Length == PAGE_SZ * BLK_PAGES && first % BLK_PAGES == 0
    requires forall b :: 0 <= b < |rel| ==> |rel[b]| == PAGE_SZ
    modifies buf
    ensures ok <==> SegmentExists(|rel|, emptySegment, first / RELSEG_SIZE)
    ensures ok ==> nbytes == PAGE_SZ * PagesFound(|rel|, first)
    ensures ok ==> RawBlock(buf[..], rel, first, PagesFound(|rel|, first))
  {
    ok, nbytes := SegmentExists(|rel|, emptySegment, first / RELSEG_SIZE), 0;
    if !ok {
      return;
    }
    var inFile := first % RELSEG_SIZE;
    var k := 0;
    while k < BLK_PAGES && inFile + k < RELSEG_SIZE && first + k < |rel|
      invariant k <= PagesFound(|rel|, first) && nbytes == PAGE_SZ * k
      invariant RawBlock(buf[..], rel, first, k)
    {
      ghost var before := buf[..];
      P.Memcpy(buf, PAGE_SZ * k, rel[first + k]);
      KeepRaw(before, buf[..], rel, first, k);
      nbytes := nbytes + PAGE_SZ;
      k := k + 1;
    }
    BlockInSegment(first);
  }

  /** Blocks do not straddle segments. */
  lemma BlockInSegment(first: nat)
    requires first % BLK_PAGES == 0
    ensures first % RELSEG_SIZE + BLK_PAGES <= RELSEG_SIZE
  {
  }

  /** Clears the rest of the buffer, behind the pages that were read. */
  method ClearTail(rel: seq<seq<byte>>, first: nat, buf: array<byte>, rdcnt: nat)
    requires buf.Length == PAGE_SZ * BLK_PAGES && rdcnt == PAGE_SZ * PagesFound(|rel|, first)
    requires RawBlock(buf[..], rel, first, PagesFound(|rel|, first)) && rdcnt < buf.Length
    modifies buf
    ensures RawBlock(buf[..], rel, first, BLK_PAGES)
  {
    for k := PagesFound(|rel|, first) to BLK_PAGES
      invariant RawBlock(buf[..], rel, first, k)
    {
      ghost var before := buf[..];
      P.Memcpy(buf, PAGE_SZ * k, seq(PAGE_SZ, _ => 0));
      KeepRaw(before, buf[..], rel, first, k);
    }
  }

  // ----- the driver -----

  ghost predicate SumPages(results: seq<int>, rel: seq<seq<byte>>, taken: nat) {
    taken <= |rel| && Int64(R.SumInts(results)) == Int64(SumItems(NativeItems(rel, taken)))
  }

  lemma SumPagesStep(results: seq<int>, rel: seq<seq<byte>>, taken: nat, next: nat, s: int)
    requires SumPages(results, rel, taken) && next <= |rel|
    requires s == Int64(SumItems(NativeItems(rel, next)) - SumItems(NativeItems(rel, taken)))
    ensures SumPages(results + [s], rel, next)
  {
    hide Int64, SumItems, NativeItems;
    var a, b := SumItems(NativeItems(rel, taken)), SumItems(NativeItems(rel, next));
    R.SumIntsAppend(results, s);
    Int64Add(R.SumInts(results), s);
    F.SumWraps(a, b - a);
  }

  lemma RawBlockResult(buf: seq<byte>, rel: seq<seq<byte>>, first: nat)
    requires PagesExtractable(rel) && RawBlock(buf, rel, first, BLK_PAGES) && |buf| == PAGE_SZ * BLK_PAGES
    ensures F.BlockOk(true, buf, BLK_PAGES)
    ensures HW.KernelOf(true, BLK_PAGES)(buf)
        == Int64(SumItems(NativeItems(rel, Min(first + BLK_PAGES, |rel|))) - SumItems(NativeItems(rel,
        Min(first, |rel|))))
  {
    hide PagesExtractable, RawBlock, F.PagesOk, F.BlockSum, SumItems, NativeItems, Int64;
    RawBlockSum(buf, rel, first, BLK_PAGES);
  }

  /** How the driver ends: the server aborted it in a read, an enqueue failed, or it has a sum. */
  datatype Outcome = ReadError | EnqueueFailed | Sum(q6Sum: int)

  /** No read of the loop fails: the block offset stays positive, and no block begins behind the last segment. */
  predicate AllReadsSucceed(n: nat, emptySegment: bool) {
    n < REACHABLE && (n == RELSEG_SIZE ==> emptySegment)
  }

  /** The read of block blkId, with all earlier blocks full, fails only when some read of the loop must fail. */
  lemma ReadSucceeds(n: nat, emptySegment: bool, blkId: nat)
    requires n < TWO31 && BLK_PAGES * blkId <= Min(n, REACHABLE)
    ensures FirstPage(blkId) % BLK_PAGES == 0
    ensures var ok := SegmentExists(n, emptySegment, FirstPage(blkId) / RELSEG_SIZE);
            && (ok ==> blkId < 1024 && FirstPage(blkId) == BLK_PAGES * blkId)
            && (!ok ==> !AllReadsSucceed(n, emptySegment))
            && (ok && n < BLK_PAGES * blkId + BLK_PAGES ==> AllReadsSucceed(n, emptySegment))
  {
    hide FirstPage, SegmentExists;
    FirstPageExactly(blkId);
    if blkId < 1024 {
      SegmentOfBlock(n, emptySegment, blkId);
    } else {
      SegmentOfOverflow(n, emptySegment);
    }
  }

  /** Within reach a block's segment is missing only behind a full last one. */
  lemma SegmentOfBlock(n: nat, emptySegment: bool, blkId: nat)
    requires BLK_PAGES * blkId <= n
    ensures SegmentExists(n, emptySegment, BLK_PAGES * blkId / RELSEG_SIZE)
       <==> !(n == BLK_PAGES * blkId && n > 0 && n % RELSEG_SIZE == 0 && !emptySegment)
  {
    var seg, r := blkId / 512, blkId % 512;
    DivideUnique(BLK_PAGES * blkId, RELSEG_SIZE, seg, BLK_PAGES * r);
  }

  lemma SegmentOfOverflow(n: nat, emptySegment: bool)
    requires n < TWO31
    ensures FirstPage(1024) == 4294705152 && !SegmentExists(n, emptySegment, FirstPage(1024) / RELSEG_SIZE)
  {
  }

  /** How many blocks are enqueued, if every call succeeds: all up to the short one, or up to the failing read. */
  function BlocksEnqueued(n: nat, emptySegment: bool): nat {
    if AllReadsSucceed(n, emptySegment) then n / BLK_PAGES + 1 else Min(n, REACHABLE) / BLK_PAGES
  }

  /** Block blkId is the one whose read fails, or that is short and therefore the last, or another follows it. */
  lemma BlocksLeft(n: nat, emptySegment: bool, blkId: nat)
    requires n < TWO31 && BLK_PAGES * blkId <= Min(n, REACHABLE)
    ensures var ok := SegmentExists(n, emptySegment, FirstPage(blkId) / RELSEG_SIZE);
            && (!ok ==> blkId == BlocksEnqueued(n, emptySegment))
            && (ok && n < BLK_PAGES * blkId + BLK_PAGES ==> blkId + 1 == BlocksEnqueued(n, emptySegment))
            && (ok && n >= BLK_PAGES * blkId + BLK_PAGES ==> blkId < BlocksEnqueued(n, emptySegment))
  {
    hide FirstPage, SegmentExists;
    FirstPageExactly(blkId);
    if blkId < 1024 {
      SegmentOfBlock(n, emptySegment, blkId);
    } else {
      SegmentOfOverflow(n, emptySegment);
    }
  }

  /** One turn of the loop: reads a block and submits it. */
  method ReadAndSubmit(rel: seq<seq<byte>>, emptySegment: bool, buf: array<byte>, host: R.Host, ghost taken: nat)
    returns (bRealPages: bool, read: bool, status: bool)
    requires PagesExtractable(rel) && |rel| < TWO31 && buf.Length == PAGE_SZ * BLK_PAGES
    requires host.Valid() && host.Answered() && !host.failed && host.blkId < host.blkIdDone + 2 * host.group
    requires host.dev.kernel == HW.KernelOf(true, BLK_PAGES) && host.dev.mapped
    requires SumPages(host.results, rel, taken) && taken == BLK_PAGES * host.blkId <= REACHABLE
    modifies buf, host`blkId, host`results, host`failed, host.dev
    ensures host.Valid() && host.Answered()
    ensures !read ==> old(host.blkId) == BlocksEnqueued(|rel|, emptySegment)
    ensures read && bRealPages ==> old(host.blkId) < BlocksEnqueued(|rel|, emptySegment)
    ensures read && !bRealPages ==> old(host.blkId) + 1 == BlocksEnqueued(|rel|, emptySegment)
    ensures read ==> (status <==> R.Accepted(host.dev.accepts, 0, R.CallsFor(true, old(host.blkId) + 1)))
    ensures !read ==> !host.failed
    ensures !(read && status) ==> host.blkId == old(host.blkId)
    ensures read && bRealPages ==> taken + BLK_PAGES <= Min(|rel|, REACHABLE)
    ensures !read ==> !AllReadsSucceed(|rel|, emptySegment)
    ensures read && !bRealPages ==> AllReadsSucceed(|rel|, emptySegment)
    ensures read ==> host.failed == !status
    ensures read && status ==> host.blkId == old(host.blkId) + 1
    ensures read && status ==> SumPages(host.results, rel, if bRealPages then taken + BLK_PAGES else |rel|)
  {
    hide PageOrZero, H.PageReadable, RawBlock, F.BlockOk, F.BlockSum, SumItems, NativeItems, Int64, R.SumInts;
    hide FirstPage, ItemsOk, SegmentExists, AllReadsSucceed, BlocksEnqueued;
    ghost var before := host.results;
    ReadSucceeds(|rel|, emptySegment, host.blkId);
    BlocksLeft(|rel|, emptySegment, host.blkId);
    var pgblk := FirstPage(host.blkId);
    PagesAreWhole(rel);
    var rdcnt;
    read, rdcnt := MdReadBigd(rel, emptySegment, pgblk, buf);
    bRealPages, status := false, false;
    if !read {
      return;
    }
    bRealPages := rdcnt == XQL6_BLK_SZ;
    if !bRealPages {
      ClearTail(rel, pgblk, buf, rdcnt);
    }
    RawBlockResult(buf[..], rel, pgblk);
    var block := buf[..];
    status := host.Submit(block);
    if status {
      ghost var next := if bRealPages then taken + BLK_PAGES else |rel|;
      SumPagesStep(before, rel, taken, next, HW.KernelOf(true, BLK_PAGES)(block));
    }
  }

  lemma PagesAreWhole(rel: seq<seq<byte>>)
    requires PagesExtractable(rel)
    ensures forall b :: 0 <= b < |rel| ==> |rel[b]| == PAGE_SZ
  {
    forall b | 0 <= b < |rel|
      ensures |rel[b]| == PAGE_SZ
    {
      ReadableIsWhole(rel[b]);
    }
  }

  /**
    The peer-to-peer driver, for any completion order: it fails in an enqueue exactly when the queue refuses one of
    the calls that it comes to. Otherwise it has a sum exactly when the page count lets all its reads succeed, and
    then the sum over all pages' items, each counted once.
  */
  method RunHwNative(rel: seq<seq<byte>>, emptySegment: bool, group: nat, accepts: nat -> bool)
    returns (outcome: Outcome)
    requires PagesExtractable(rel) && |rel| < TWO31 && group > 0
    ensures outcome ==
              if !R.Accepted(accepts, 0, R.CallsFor(true, BlocksEnqueued(|rel|, emptySegment))) then EnqueueFailed
              else if AllReadsSucceed(|rel|, emptySegment) then Sum(Int64(SumItems(NativeItems(rel, |rel|))))
              else ReadError
  {
    hide PagesExtractable, SumPages, SumItems, NativeItems, Int64, R.SumInts, AllReadsSucceed, BlocksEnqueued;
    hide R.Accepted;
    hide R.Host.Valid, R.Host.Answered;
    var buf := new byte[PAGE_SZ * BLK_PAGES](_ => 0);
    var host := new R.Host(group, true, HW.KernelOf(true, BLK_PAGES), accepts);
    ghost var taken, blocks := 0, BlocksEnqueued(|rel|, emptySegment);
    NoPages(rel);
    var bRealPages := true;
    while bRealPages
      invariant fresh(host) && fresh(host.dev)
      invariant host.Valid() && host.InStep() && host.Answered() && !host.failed
      invariant host.dev.kernel == HW.KernelOf(true, BLK_PAGES) && host.dev.mapped && host.dev.accepts == accepts
      invariant SumPages(host.results, rel, taken)
      invariant bRealPages ==> taken == BLK_PAGES * host.blkId <= Min(|rel|, REACHABLE)
      invariant !bRealPages ==> taken == |rel| && AllReadsSucceed(|rel|, emptySegment) && host.blkId == blocks
      decreases |rel| - taken, bRealPages
    {
      host.CollectGroup();
      var read, status;
      bRealPages, read, status := ReadAndSubmit(rel, emptySegment, buf, host, taken);
      if !read {
        host.AllAnswered();
        return ReadError;
      }
      if !status {
        R.AcceptedSplit(accepts, 0, R.CallsFor(true, host.blkId + 1), R.CallsFor(true, blocks - host.blkId - 1));
        host.Drain();
        return EnqueueFailed;
      }
      taken := if bRealPages then taken + BLK_PAGES else |rel|;
    }
    host.AllAnswered();
    host.Drain();
    TakenAll(host.results, rel, taken);
    return Sum(host.q6Sum);
  }

  lemma TakenAll(results: seq<int>, rel: seq<seq<byte>>, taken: nat)
    ensures SumPages(results, rel, taken) ==> Int64(R.SumInts(results)) == Int64(SumItems(NativeItems(rel, taken)))
  {
  }

  lemma NoPages(rel: seq<seq<byte>>)
    ensures SumPages([], rel, 0)
  {
  }
}
