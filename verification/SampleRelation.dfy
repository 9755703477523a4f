/**
  Relations whose pages each hold one and the same selected tuple, and the page counts at which the
  peer-to-peer driver fails on them.
*/
module SampleRelation {
  import opened Machine
  import opened Tuples
  import opened P2PDriver
  import Lineitem
  import Numeric
  import L = Layout
  import H = HeapPage
  import W = HeapLayout
  import P = Packer
  import A = Agreement

  // ----- one tuple: quantity 1, price 1, discount 0.06, shipped 2000 days before 2000-01-01 -----

  const ONE: seq<byte> := [0, 129, 1, 0]
  const SIX_HUNDREDTHS: seq<byte> := [127, 129, 88, 2]
  const SHIPPED: seq<byte> := [0x30, 0xF8, 0xFF, 0xFF]

  function Attr(i: nat): (v: seq<byte>)
    requires i < Lineitem.ATTRS
    ensures if Lineitem.AttrLen(i) == -1 then |v| <= 4 else |v| == Lineitem.AttrLen(i)
  {
    if i == Lineitem.QTY || i == Lineitem.EXT then ONE
    else if i == Lineitem.DSC then SIX_HUNDREDTHS
    else if i == Lineitem.SHP then SHIPPED
    else if Lineitem.AttrLen(i) == -1 then []
    else seq(Lineitem.AttrLen(i), _ => 0)
  }

  function SampleTuple(): L.Tuple {
    L.Tuple(seq(Lineitem.ATTRS, i requires 0 <= i < Lineitem.ATTRS => Attr(i)), [0, 0, 0])
  }

  /** A numeric of scale 2 with one stored digit, before the point or right behind it. */
  lemma OneDigit(b0: byte, lo: byte, hi: byte)
    requires b0 == 0 || b0 == 127
    requires Word16(lo, hi) < 10000
    ensures L.Decimal15([b0, 129, lo, hi])
    ensures Numeric.Hundredths([b0, 129, lo, hi]) == if b0 == 0 then 100 * Word16(lo, hi) else Word16(lo, hi) / 100
  {
    hide Word16, Product, Quotient;
    var p, d := [b0, 129, lo, hi], Word16(lo, hi);
    assert Numeric.DigitCount(p) == 1;
    assert Numeric.Digit(p, 0) == d;
    assert Numeric.SmallDigits(p, 1);
    assert Numeric.Prefix(p, 1) == Numeric.Prefix(p, 0) * 10000 + d == d;
    assert Numeric.Pow10000(0) == 1;
    assert Numeric.Pow10000(1) == 10000 * Numeric.Pow10000(0);
    ProductIs(100 * d, 1);
    QuotientIs(100 * d, 10000);
  }

  lemma OneIsOne()
    ensures L.Decimal15(ONE) && Numeric.Hundredths(ONE) == 100
  {
    OneDigit(0, 1, 0);
  }

  lemma SixIsSix()
    ensures L.Decimal15(SIX_HUNDREDTHS) && Numeric.Hundredths(SIX_HUNDREDTHS) == 6
  {
    OneDigit(127, 88, 2);
  }

  lemma SampleAttrs()
    ensures var t := SampleTuple();
            && L.Shaped(t) && t.attrs[Lineitem.QTY] == ONE && t.attrs[Lineitem.EXT] == ONE
            && t.attrs[Lineitem.DSC] == SIX_HUNDREDTHS && t.attrs[Lineitem.SHP] == SHIPPED
  {
  }

  lemma Shipped()
    ensures Lineitem.ReadDate(SHIPPED) == -2000
  {
  }

  lemma SampleRevenue()
    ensures L.WellFormedTuple(SampleTuple()) && L.Revenue(SampleTuple()) == 600
  {
    hide SampleTuple, L.DateOf, Numeric.Hundredths, L.Decimal15, Lineitem.ReadDate, L.Shaped, ONE, SIX_HUNDREDTHS;
    hide SHIPPED;
    SampleAttrs();
    OneIsOne();
    SixIsSix();
    Shipped();
    L.SelectedExactly(100, 6, -2000);
  }

  lemma {:induction false} EncodedIsShort(t: L.Tuple, i: nat)
    requires L.Shaped(t) && i <= Lineitem.ATTRS
    ensures |L.Encoded(t, i)| <= 127 * i
  {
    if i > 0 {
      EncodedIsShort(t, i - 1);
    }
  }

  // ----- one page -----

  /** A page with one line pointer, to tuple data d behind a 24-byte tuple header at offset 64. */
  function PageOf(d: seq<byte>): (p: seq<byte>)
    requires |d| <= 8000
    ensures |p| == PAGE_SZ
  {
    W.Written([W.Item(64, 24, 1, d)], 1)
  }

  lemma PageHolds(d: seq<byte>)
    requires 0 < |d| <= 8000
    ensures H.WellFormedPage(PageOf(d)) && H.Items(PageOf(d), 0) == [d]
  {
    hide H.WellFormedPage, H.Items, W.Written, W.Holds;
    var items := [W.Item(64, 24, 1, d)];
    W.PageExists(items);
    W.HeldIsWellFormed(PageOf(d), items);
    W.HeldItems(PageOf(d), items);
    assert W.Datas(items) == [d];
    W.AllNonEmpty([d]);
  }

  // ----- many pages -----

  function Pages(n: nat, page: seq<byte>): seq<seq<byte>> {
    seq(n, _ => page)
  }

  lemma {:induction false} ItemsOfPages(n: nat, page: seq<byte>, d: seq<byte>, blk: nat)
    requires blk <= n && H.Items(page, 0) == [d]
    ensures P.ItemsFrom(Pages(n, page), blk) == seq(n - blk, _ => d)
    decreases n - blk
  {
    hide H.Items;
    if blk < n {
      ItemsOfPages(n, page, d, blk + 1);
      assert P.ItemsFrom(Pages(n, page), blk) == [d] + P.ItemsFrom(Pages(n, page), blk + 1);
    }
  }

  /** n pages that hold the stored form of t each. */
  lemma CopiesStored(n: nat, t: L.Tuple)
    requires L.WellFormedTuple(t) && 0 < |L.Encode(t)| <= 8000
    ensures A.Stores(Pages(n, PageOf(L.Encode(t))), seq(n, _ => t))
  {
    hide L.Encode, L.Decimal15, L.Shaped, H.WellFormedPage, H.Items, P.ItemsFrom, PageOf;
    var d := L.Encode(t);
    PageHolds(d);
    ItemsOfPages(n, PageOf(d), d, 0);
  }

  lemma {:induction false} CopiesWorth(n: nat, t: L.Tuple)
    requires L.WellFormedTuple(t) && L.Revenue(t) == 600
    ensures L.TotalRevenue(seq(n, _ => t)) == 600 * n
  {
    hide L.WellFormedTuple, L.Revenue;
    var ts := seq(n, _ => t);
    if n > 0 {
      CopiesWorth(n - 1, t);
      assert ts[..n - 1] == seq(n - 1, _ => t);
    }
  }

  lemma EncodeFits(t: L.Tuple)
    requires L.WellFormedTuple(t)
    ensures 0 < |L.Encode(t)| <= 8000
  {
    hide L.Decimal15, L.Shaped, L.Encoded, ItemOk, Lineitem.RowAt, Lineitem.Contribution, L.Revenue;
    EncodedIsShort(t, Lineitem.ATTRS);
    StoredOk(t);
    ItemNotEmpty(L.Encode(t));
  }

  lemma ItemNotEmpty(d: seq<byte>)
    requires ItemOk(d)
    ensures |d| > 0
  {
    hide Lineitem.FieldsOk, Lineitem.NumericsOk, Lineitem.Off;
    Lineitem.TupleFits(d);
  }

  /** One full segment file: 131072 pages, and the driver's next read finds no file. */
  method OneSegmentFails(group: nat, accepts: nat -> bool) returns (outcome: Outcome)
    requires group > 0
    ensures outcome == if exists c: nat :: c < 1536 && !accepts(c) then EnqueueFailed else ReadError
  {
    outcome := RunOnCopies(131072, false, group, accepts);
  }

  /** Two gigabytes: at block 1024 the byte offset overflows, and no such segment exists. */
  method TwoGigabytesFail(emptySegment: bool, group: nat, accepts: nat -> bool) returns (outcome: Outcome)
    requires group > 0
    ensures outcome == if exists c: nat :: c < 3072 && !accepts(c) then EnqueueFailed else ReadError
  {
    outcome := RunOnCopies(262144, emptySegment, group, accepts);
  }

  /** One page less than two gigabytes, and the sum is right. */
  method JustBelowSucceeds(emptySegment: bool, group: nat, accepts: nat -> bool) returns (outcome: Outcome)
    requires group > 0
    ensures outcome == if exists c: nat :: c < 3072 && !accepts(c) then EnqueueFailed else Sum(600 * 262143)
  {
    outcome := RunOnCopies(262143, emptySegment, group, accepts);
    Int64Exact(600 * 262143);
  }

  /** The driver on n pages of one tuple worth 600 each. */
  method RunOnCopies(n: nat, emptySegment: bool, group: nat, accepts: nat -> bool) returns (outcome: Outcome)
    requires group > 0 && n < TWO31
    ensures var allRead := n < 262144 && (n == 131072 ==> emptySegment);
            var blocks := if allRead then n / 256 + 1 else if n < 262144 then n / 256 else 1024;
            outcome == if exists c: nat :: c < 3 * blocks && !accepts(c) then EnqueueFailed
                       else if allRead then Sum(Int64(600 * n))
                       else ReadError
  {
    hide L.Encode, L.WellFormedTuple, L.Revenue, SampleTuple, PageOf, A.Stores, Int64;
    var t := SampleTuple();
    SampleRevenue();
    EncodeFits(t);
    CopiesStored(n, t);
    CopiesWorth(n, t);
    var rel := Pages(n, PageOf(L.Encode(t)));
    outcome := A.QueryPeerToPeer(rel, emptySegment, group, accepts, seq(n, _ => t));
  }
}
