/**
  Writing heap pages: the bytes that PostgreSQL puts at literal places of a page that holds given items,
  and the proof that both extractors find exactly those items there.
*/
module HeapLayout {
  import opened Machine
  import H = HeapPage

  /** A tuple on a page: where it begins, the length of its header, the line pointer's flags, and its data. */
  datatype Item = Item(at: nat, hoff: nat, flags: nat, data: seq<byte>)

  predicate Separate(a: Item, b: Item) {
    a.at + a.hoff + |a.data| <= b.at || b.at + b.hoff + |b.data| <= a.at
  }

  /** Four bytes, lowest first. */
  function Four(p: seq<byte>, at: nat): int
    requires at + 4 <= |p|
  {
    p[at] as int + 256 * p[at + 1] as int + 65536 * p[at + 2] as int + 16777216 * p[at + 3] as int
  }

  /** Items can lie on one page behind the line pointers, apart from each other. */
  ghost predicate Placeable(items: seq<Item>) {
    && 24 + 4 * |items| <= 8192
    && (forall k :: 0 <= k < |items| ==> Inside(items[k], 24 + 4 * |items|))
    && forall j, k :: 0 <= j < k < |items| ==> Separate(items[j], items[k])
  }

  /** A tuple header is at least 23 bytes long. */
  predicate Inside(it: Item, lower: nat) {
    23 <= it.hoff < 256 && it.flags < 4 && lower <= it.at && it.at + it.hoff + |it.data| <= 8192
  }

  /** A line pointer of 15 bits of offset, 2 of flags and 15 of length; the header length; the data. */
  predicate ItemHeld(p: seq<byte>, it: Item, pointer: nat) {
    && pointer + 4 <= |p| && it.at + 22 < |p| && it.at + it.hoff + |it.data| <= |p|
    && Four(p, pointer) == it.at + 0x8000 * it.flags + 0x2_0000 * (it.hoff + |it.data|)
    && p[it.at + 22] as int == it.hoff
    && p[it.at + it.hoff..it.at + it.hoff + |it.data|] == it.data
  }

  /** The page holds these items; all its other bytes are arbitrary. */
  ghost predicate Holds(p: seq<byte>, items: seq<Item>) {
    && |p| == 8192 && Placeable(items)
    && p[12] as int + 256 * p[13] as int == 24 + 4 * |items|
    && Four(p, 20) == 0
    && forall k :: 0 <= k < |items| ==> ItemHeld(p, items[k], 24 + 4 * k)
  }

  function Datas(items: seq<Item>): (ds: seq<seq<byte>>)
    ensures |ds| == |items| && forall k :: 0 <= k < |items| ==> ds[k] == items[k].data
  {
    seq(|items|, k requires 0 <= k < |items| => items[k].data)
  }

  // ----- reading -----

  lemma PointerSplits(at: int, flags: int, len: int)
    requires 0 <= at < 0x8000 && 0 <= flags < 4 && 0 <= len
    ensures (at + 0x8000 * flags + 0x2_0000 * len) % 0x8000 == at
    ensures (at + 0x8000 * flags + 0x2_0000 * len) / 0x2_0000 == len
  {
    DivideUnique(at + 0x8000 * flags + 0x2_0000 * len, 0x8000, flags + 4 * len, at);
    DivideUnique(at + 0x8000 * flags + 0x2_0000 * len, 0x2_0000, len, at + 0x8000 * flags);
  }

  /** Line k of the page, counted from 1, is what was written there. */
  lemma LineReads(p: seq<byte>, it: Item, k: nat)
    requires |p| == 8192 && k > 0 && Inside(it, 0) && it.at < 0x8000 && ItemHeld(p, it, 20 + 4 * k)
    ensures H.ItemReadable(p, k) && H.DataStart(p, k) == it.at + it.hoff && H.DataLen(p, k) == |it.data|
    ensures H.Data(p, k) == it.data
  {
    assert H.LinePointer(p, k) == Four(p, 20 + 4 * k);
    PointerSplits(it.at, it.flags, it.hoff + |it.data|);
  }

  lemma LinesCounted(p: seq<byte>, items: seq<Item>)
    requires Holds(p, items)
    ensures H.NLines(p) == |items|
  {
  }

  lemma HeldLine(p: seq<byte>, items: seq<Item>, k: nat)
    requires Holds(p, items) && 0 < k <= |items|
    ensures var it := items[k - 1];
            && H.ItemReadable(p, k) && H.DataStart(p, k) == it.at + it.hoff && H.DataLen(p, k) == |it.data|
            && H.Data(p, k) == it.data && Inside(it, 24 + 4 * |items|)
  {
    hide H.ItemReadable, H.DataStart, H.DataLen, H.Data, ItemHeld;
    assert ItemHeld(p, items[k - 1], 24 + 4 * (k - 1)) && Inside(items[k - 1], 24 + 4 * |items|);
    LineReads(p, items[k - 1], k);
  }

  /** A page that holds items is well formed, whatever its other bytes. */
  lemma HeldIsWellFormed(p: seq<byte>, items: seq<Item>)
    requires Holds(p, items)
    ensures H.WellFormedPage(p)
  {
    hide H.ItemReadable, H.DataStart, H.DataLen, H.Data, H.NLines, ItemHeld;
    LinesCounted(p, items);
    H.PruneWordZero(p);
    forall k: nat | 1 <= k <= |items|
      ensures H.ItemReadable(p, k) && H.DataStart(p, k) >= 24 + 4 * |items|
    {
      HeldLine(p, items, k);
    }
    forall j: nat, k: nat | 1 <= j < k <= |items|
      ensures H.DataStart(p, j) + H.DataLen(p, j) <= H.DataStart(p, k) || H.DataStart(p, k) + H.DataLen(p,
          k) <= H.DataStart(p, j)
    {
      HeldLine(p, items, j);
      HeldLine(p, items, k);
      assert Separate(items[j - 1], items[k - 1]);
    }
  }

  /** Extraction undoes writing: the items of the page are the data that were written, empty ones left out, in order. */
  lemma HeldItems(p: seq<byte>, items: seq<Item>)
    requires Holds(p, items)
    ensures H.Items(p, 0) == H.NonEmpty(Datas(items))
  {
    hide H.ItemReadable, H.DataStart, H.NLines, H.Data, ItemHeld, H.NonEmpty;
    LinesCounted(p, items);
    H.PruneWordZero(p);
    H.FirstLineEmpty(p);
    forall k | 0 <= k < |items|
      ensures H.DataFrom(p, 1)[k] == items[k].data
    {
      HeldLine(p, items, k + 1);
    }
    assert H.DataFrom(p, 1) == Datas(items);
  }

  lemma {:induction false} AllNonEmpty(ds: seq<seq<byte>>)
    requires forall k :: 0 <= k < |ds| ==> ds[k] != []
    ensures H.NonEmpty(ds) == ds
  {
    if ds != [] {
      AllNonEmpty(ds[1..]);
    }
  }

  // ----- such pages exist -----

  function Put(p: seq<byte>, at: nat, bs: seq<byte>): (q: seq<byte>)
    requires at + |bs| <= |p|
    ensures |q| == |p| && q[at..at + |bs|] == bs
    ensures forall i :: 0 <= i < |p| && !(at <= i < at + |bs|) ==> q[i] == p[i]
  {
    p[..at] + bs + p[at + |bs|..]
  }

  /** The bytes of a number, lowest first. */
  function FourBytes(x: nat): (bs: seq<byte>)
    ensures |bs| == 4
  {
    [x % 256, x / 256 % 256, x / 65536 % 256, x / 16777216 % 256]
  }

  lemma FourReads(p: seq<byte>, at: nat, x: nat)
    requires at + 4 <= |p| && x < TWO32 && p[at..at + 4] == FourBytes(x)
    ensures Four(p, at) == x
  {
    var bs := FourBytes(x);
    assert p[at] == p[at..at + 4][0] && p[at + 1] == p[at..at + 4][1] && p[at + 2] == p[at..at + 4][2];
    assert p[at + 3] == p[at..at + 4][3];
    var x1, x2, x3 := x / 256, x / 65536, x / 16777216;
    assert x == 256 * x1 + bs[0] as int && x1 == 256 * x2 + bs[1] as int && x2 == 256 * x3 + bs[2] as int;
    assert x3 < 256;
  }

  function PutItem(p: seq<byte>, it: Item, pointer: nat): (q: seq<byte>)
    requires |p| == 8192 && pointer + 4 <= 8192 && Inside(it, 0)
    ensures |q| == 8192
  {
    var withPointer := Put(p, pointer, FourBytes(it.at + 0x8000 * it.flags + 0x2_0000 * (it.hoff + |it.data|)));
    Put(Put(withPointer, it.at + 22, [it.hoff]), it.at + it.hoff, it.data)
  }

  lemma PutHolds(p: seq<byte>, it: Item, pointer: nat)
    requires |p| == 8192 && Inside(it, pointer + 4)
    ensures ItemHeld(PutItem(p, it, pointer), it, pointer)
  {
    var q, x := PutItem(p, it, pointer), it.at + 0x8000 * it.flags + 0x2_0000 * (it.hoff + |it.data|);
    assert q[pointer..pointer + 4] == FourBytes(x);
    FourReads(q, pointer, x);
  }

  /** Writing one item leaves another, and everything in front of the line pointers, as it was. */
  lemma PutKeeps(p: seq<byte>, it: Item, pointer: nat, other: Item, where: nat)
    requires |p| == 8192 && Inside(it, pointer + 4) && Inside(other, pointer + 4) && Separate(it, other)
    requires where + 4 <= pointer && ItemHeld(p, other, where)
    ensures ItemHeld(PutItem(p, it, pointer), other, where)
  {
    var q := PutItem(p, it, pointer);
    var a, b := other.at + other.hoff, other.at + other.hoff + |other.data|;
    assert q[a..b] == p[a..b];
    assert Four(q, where) == Four(p, where);
  }

  function Header(n: nat): (p: seq<byte>)
    requires 24 + 4 * n <= 8192
    ensures |p| == 8192
  {
    seq(8192, i requires 0 <= i => if i == 12 then (24 + 4 * n) % 256 else if i == 13 then (24 + 4 * n) / 256 else 0)
  }

  /** A page with the first m of the items written. */
  function Written(items: seq<Item>, m: nat): (p: seq<byte>)
    requires 24 + 4 * |items| <= 8192 && m <= |items| && forall k :: 0 <= k < |items| ==> Inside(items[k], 0)
    ensures |p| == 8192
  {
    if m == 0 then Header(|items|) else PutItem(Written(items, m - 1), items[m - 1], 24 + 4 * (m - 1))
  }

  /** The page header announces n line pointers, and the prune word is zero. */
  predicate HeaderFor(p: seq<byte>, n: nat) {
    |p| == 8192 && p[12] as int + 256 * p[13] as int == 24 + 4 * n && Four(p, 20) == 0
  }

  lemma PutKeepsHeader(p: seq<byte>, it: Item, pointer: nat, n: nat)
    requires HeaderFor(p, n) && 24 <= pointer && Inside(it, pointer + 4)
    ensures HeaderFor(PutItem(p, it, pointer), n)
  {
    var q := PutItem(p, it, pointer);
    assert forall i :: 0 <= i < 24 ==> q[i] == p[i];
  }

  lemma HeaderIsThere(n: nat)
    requires 24 + 4 * n <= 8192
    ensures HeaderFor(Header(n), n)
  {
  }

  lemma {:induction false} WrittenHolds(items: seq<Item>, m: nat)
    requires Placeable(items) && m <= |items|
    ensures forall k :: 0 <= k < |items| ==> Inside(items[k], 0)
    ensures var p := Written(items, m);
            HeaderFor(p, |items|) && forall k :: 0 <= k < m ==> ItemHeld(p, items[k], 24 + 4 * k)
  {
    hide ItemHeld, HeaderFor, PutItem, Header;
    forall k | 0 <= k < |items|
      ensures Inside(items[k], 0) && Inside(items[k], 24 + 4 * |items|)
    {
    }
    if m == 0 {
      HeaderIsThere(|items|);
    } else {
      WrittenHolds(items, m - 1);
      var p, it, pointer := Written(items, m - 1), items[m - 1], 24 + 4 * (m - 1);
      PutHolds(p, it, pointer);
      PutKeepsHeader(p, it, pointer, |items|);
      forall k | 0 <= k < m - 1
        ensures ItemHeld(PutItem(p, it, pointer), items[k], 24 + 4 * k)
      {
        assert Separate(items[k], it);
        PutKeeps(p, it, pointer, items[k], 24 + 4 * k);
      }
    }
  }

  /** Every list of items with any places apart from each other and any header lengths has its page. */
  lemma PageExists(items: seq<Item>)
    requires Placeable(items)
    ensures forall k :: 0 <= k < |items| ==> Inside(items[k], 0)
    ensures Holds(Written(items, |items|), items)
  {
    WrittenHolds(items, |items|);
  }
}
