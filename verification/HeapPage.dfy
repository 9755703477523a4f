/**
  PostgreSQL heap pages as both extractors read them: page header, line pointers of four bytes and
  tuples with a header of their own, whose length is stored in its byte 22.
*/
module HeapPage {
  import opened Machine

  const SIZE_OF_PAGE_HEADER: nat := 24
  const SIZE_OF_ITEM_ID: nat := 4
  const T_HOFF: nat := 22

  /** Page k of a block of pages. */
  function BlockPage(block: seq<byte>, k: nat): seq<byte> {
    if PAGE_SZ * k + PAGE_SZ <= |block| then block[PAGE_SZ * k..PAGE_SZ * k + PAGE_SZ] else []
  }

  /** Blocks that agree on their first n pages agree on each of them. */
  lemma SamePage(a: seq<byte>, b: seq<byte>, k: nat, n: nat)
    requires k < n && PAGE_SZ * n <= |a| == |b| && a[..PAGE_SZ * n] == b[..PAGE_SZ * n]
    ensures BlockPage(a, k) == BlockPage(b, k)
  {
    var i, j := PAGE_SZ * k, PAGE_SZ * k + PAGE_SZ;
    assert a[i..j] == a[..PAGE_SZ * n][i..j];
    assert b[i..j] == b[..PAGE_SZ * n][i..j];
  }

  function ByteAt(p: seq<byte>, i: nat): byte {
    if i < |p| then p[i] else 0
  }

  function PdLower(p: seq<byte>): nat {
    Word16(ByteAt(p, 12), ByteAt(p, 13))
  }

  /** PageGetMaxOffsetNumber. */
  function NLines(p: seq<byte>): nat {
    if PdLower(p) <= SIZE_OF_PAGE_HEADER then 0 else (PdLower(p) - SIZE_OF_PAGE_HEADER) / SIZE_OF_ITEM_ID
  }

  /** Line pointer k of the 1-based array; line 0, which both extractors visit, is the last word of the page header. */
  function LinePointer(p: seq<byte>, k: nat): (w: int)
    ensures 0 <= w < TWO32
  {
    var at := SIZE_OF_PAGE_HEADER - SIZE_OF_ITEM_ID + SIZE_OF_ITEM_ID * k;
    Word16(ByteAt(p, at), ByteAt(p, at + 1)) + TWO16 * Word16(ByteAt(p, at + 2), ByteAt(p, at + 3))
  }

  /** Bit fields of a line pointer: 15 bits of offset, 2 of flags, 15 of length. */
  function LpOff(p: seq<byte>, k: nat): nat {
    LinePointer(p, k) % 0x8000
  }

  function LpLen(p: seq<byte>, k: nat): nat {
    LinePointer(p, k) / 0x2_0000
  }

  function DataStart(p: seq<byte>, k: nat): nat {
    LpOff(p, k) + ByteAt(p, LpOff(p, k) + T_HOFF)
  }

  /** What is left of an item without its tuple header. */
  function DataLen(p: seq<byte>, k: nat): int {
    LpLen(p, k) - ByteAt(p, LpOff(p, k) + T_HOFF) as int
  }

  predicate ItemReadable(p: seq<byte>, k: nat) {
    && LpOff(p, k) + T_HOFF < PAGE_SZ
    && 0 <= DataLen(p, k)
    && DataStart(p, k) + DataLen(p, k) <= PAGE_SZ
  }

  /** Every visited line pointer denotes bytes of the page. */
  predicate PageReadable(p: seq<byte>) {
    && |p| == PAGE_SZ
    && SIZE_OF_PAGE_HEADER + SIZE_OF_ITEM_ID * NLines(p) <= PAGE_SZ
    && forall k: nat :: k <= NLines(p) ==> ItemReadable(p, k)
  }

  function Data(p: seq<byte>, k: nat): seq<byte> {
    if DataLen(p, k) >= 0 && DataStart(p, k) + DataLen(p, k) <= |p|
    then p[DataStart(p, k)..DataStart(p, k) + DataLen(p, k)]
    else []
  }

  function LinesFrom(p: seq<byte>, k: nat): nat {
    if k > NLines(p) then 0 else NLines(p) + 1 - k
  }

  /** The data of line k and up. */
  function DataFrom(p: seq<byte>, k: nat): seq<seq<byte>> {
    seq(LinesFrom(p, k), i requires 0 <= i => Data(p, k + i))
  }

  function NonEmpty(ds: seq<seq<byte>>): (items: seq<seq<byte>>)
    ensures forall i :: 0 <= i < |items| ==> items[i] != []
  {
    if ds == [] then [] else (if ds[0] == [] then [] else [ds[0]]) + NonEmpty(ds[1..])
  }

  /** The non-empty items from line k on. */
  function Items(p: seq<byte>, k: nat): (items: seq<seq<byte>>)
    ensures forall i :: 0 <= i < |items| ==> items[i] != []
  {
    NonEmpty(DataFrom(p, k))
  }

  lemma ItemsStep(p: seq<byte>, k: nat)
    ensures k <= NLines(p) ==> Items(p, k) == (if Data(p, k) == [] then [] else [Data(p, k)]) + Items(p, k + 1)
    ensures k > NLines(p) ==> Items(p, k) == []
  {
    hide NLines, Data;
    if k <= NLines(p) {
      assert DataFrom(p, k) == [Data(p, k)] + DataFrom(p, k + 1);
    }
  }

  function Concat(items: seq<seq<byte>>): seq<byte> {
    if items == [] then [] else items[0] + Concat(items[1..])
  }

  lemma {:induction false} ConcatAppend(a: seq<seq<byte>>, b: seq<seq<byte>>)
    ensures Concat(a + b) == Concat(a) + Concat(b)
  {
    if a == [] {
      assert a + b == b;
    } else {
      ConcatAppend(a[1..], b);
      assert (a + b)[0] == a[0] && (a + b)[1..] == a[1..] + b;
      assert a[0] + (Concat(a[1..]) + Concat(b)) == (a[0] + Concat(a[1..])) + Concat(b);
    }
  }

  /** How many items fit, first come first served, behind `used` bytes: the guard keeps one byte free. */
  function Fit(items: seq<seq<byte>>, used: nat): (n: nat)
    ensures n <= |items|
  {
    if items == [] || used + |items[0]| >= PAGE_SZ then 0 else 1 + Fit(items[1..], used + |items[0]|)
  }

  lemma {:induction false} FitBounds(items: seq<seq<byte>>, used: nat)
    requires used < PAGE_SZ
    ensures used + |Concat(items[..Fit(items, used)])| < PAGE_SZ
    ensures Fit(items, used) < |items| ==>
        used + |Concat(items[..Fit(items, used)])| + |items[Fit(items, used)]| >= PAGE_SZ
    decreases |items|
  {
    if items != [] && used + |items[0]| < PAGE_SZ {
      var n := Fit(items, used);
      FitBounds(items[1..], used + |items[0]|);
      assert items[..n] == [items[0]] + items[1..][..n - 1];
    }
  }

  lemma {:induction false} FitAll(items: seq<seq<byte>>, used: nat)
    requires used + |Concat(items)| < PAGE_SZ
    ensures Fit(items, used) == |items|
    decreases |items|
  {
    if items != [] {
      FitAll(items[1..], used + |items[0]|);
    }
  }

  lemma DataHasLen(p: seq<byte>, k: nat)
    requires |p| == PAGE_SZ && ItemReadable(p, k)
    ensures |Data(p, k)| == DataLen(p, k)
    ensures forall i :: 0 <= i < |Data(p, k)| ==> Data(p, k)[i] == p[DataStart(p, k) + i]
  {
  }

  /** In the middle of taking items greedily: some taken, the rest still to come, the greedy count unchanged. */
  ghost predicate Taking(items: seq<seq<byte>>, done: seq<seq<byte>>, rest: seq<seq<byte>>, used: nat, start: nat) {
    && done + rest == items
    && used == start + |Concat(done)|
    && Fit(items, start) == |done| + Fit(rest, used)
  }

  lemma TakingStart(items: seq<seq<byte>>, start: nat)
    ensures Taking(items, [], items, start, start)
  {
    assert [] + items == items;
  }

  lemma TakeOne(items: seq<seq<byte>>, done: seq<seq<byte>>, d: seq<byte>, rest: seq<seq<byte>>, used: nat, start: nat)
    requires Taking(items, done, [d] + rest, used, start) && used + |d| < PAGE_SZ
    ensures Taking(items, done + [d], rest, used + |d|, start)
    ensures Concat(done + [d]) == Concat(done) + d
  {
    assert ([d] + rest)[1..] == rest;
    assert done + ([d] + rest) == done + [d] + rest;
    ConcatOne(done, d);
  }

  /** An empty line changes nothing; one that fits is taken. `tail` is what follows the page. */
  lemma VisitLine(p: seq<byte>, items: seq<seq<byte>>, done: seq<seq<byte>>, k: nat, tail: seq<seq<byte>>, used: nat,
                  start: nat)
    requires Taking(items, done, Items(p, k) + tail, used, start) && k <= NLines(p)
    ensures Data(p, k) == [] ==> Taking(items, done, Items(p, k + 1) + tail, used, start)
    ensures Data(p, k) != [] && used + |Data(p, k)| < PAGE_SZ ==>
              && Taking(items, done + [Data(p, k)], Items(p, k + 1) + tail, used + |Data(p, k)|, start)
              && Concat(done + [Data(p, k)]) == Concat(done) + Data(p, k)
    ensures Data(p, k) != [] ==> |Items(p, k) + tail| > 0 && (Items(p, k) + tail)[0] == Data(p, k)
  {
    hide *;
    ItemsStep(p, k);
    var d, rest := Data(p, k), Items(p, k + 1) + tail;
    if d == [] {
      assert Items(p, k) + tail == rest;
    } else {
      assert Items(p, k) + tail == [d] + rest;
      if used + |d| < PAGE_SZ {
        TakeOne(items, done, d, rest, used, start);
      }
    }
  }

  /** At the end, or at an item that does not fit, exactly the greedy prefix has been taken. */
  lemma TakingStop(items: seq<seq<byte>>, done: seq<seq<byte>>, rest: seq<seq<byte>>, used: nat, start: nat)
    requires Taking(items, done, rest, used, start)
    requires rest != [] ==> used + |rest[0]| >= PAGE_SZ
    ensures |done| == Fit(items, start) && items[..|done|] == done && items[|done|..] == rest
  {
  }

  lemma ConcatOne(a: seq<seq<byte>>, d: seq<byte>)
    ensures Concat(a + [d]) == Concat(a) + d
  {
    ConcatAppend(a, [d]);
    assert Concat([d]) == d;
  }

  /** Items without header, or placed by the database: line 0 empty, data areas apart and behind the line pointers. */
  ghost predicate WellFormedPage(p: seq<byte>) {
    && PageReadable(p)
    && DataLen(p, 0) == 0
    && (forall k: nat :: 1 <= k <= NLines(p) && DataLen(p, k) > 0 ==>
          DataStart(p, k) >= SIZE_OF_PAGE_HEADER + SIZE_OF_ITEM_ID * NLines(p))
    && forall j: nat, k: nat :: 1 <= j < k <= NLines(p) && DataLen(p, j) > 0 && DataLen(p, k) > 0 ==>
         DataStart(p, j) + DataLen(p, j) <= DataStart(p, k) || DataStart(p, k) + DataLen(p, k) <= DataStart(p, j)
  }

  /** Line 0 is the page's prune word; while that is zero, line 0 is empty whatever else the page holds. */
  lemma PruneWordZero(p: seq<byte>)
    requires |p| == PAGE_SZ && p[20] == 0 && p[21] == 0 && p[22] == 0 && p[23] == 0
    ensures ItemReadable(p, 0) && DataLen(p, 0) == 0
  {
    assert LinePointer(p, 0) == 0;
  }

  // ----- disjoint items fit one page -----

  datatype Span = Span(start: int, len: nat)

  predicate Apart(a: Span, b: Span) {
    a.len > 0 && b.len > 0 ==> a.start + a.len <= b.start || b.start + b.len <= a.start
  }

  ghost predicate AllApart(spans: seq<Span>, lo: int, hi: int) {
    && (forall i :: 0 <= i < |spans| && spans[i].len > 0 ==>
      lo <= spans[i].start && spans[i].start + spans[i].len <= hi)
    && forall i, j :: 0 <= i < j < |spans| ==> Apart(spans[i], spans[j])
  }

  function TotalLen(spans: seq<Span>): nat {
    if spans == [] then 0 else spans[0].len + TotalLen(spans[1..])
  }

  predicate Between(a: int, x: int, b: int) {
    a <= x < b
  }

  ghost function Interval(a: int, b: int): set<int> {
    set x: int | a <= x < b && Between(a, x, b)
  }

  lemma {:induction false} IntervalSize(a: int, b: int)
    requires a <= b
    ensures |Interval(a, b)| == b - a
    decreases b - a
  {
    if a < b {
      IntervalSize(a, b - 1);
      assert Interval(a, b) == Interval(a, b - 1) + {b - 1};
    }
  }

  ghost function Covered(spans: seq<Span>): set<int> {
    if spans == [] then {} else Interval(spans[0].start, spans[0].start + spans[0].len) + Covered(spans[1..])
  }

  lemma {:induction false} Outside(spans: seq<Span>, s: Span, x: int)
    requires s.start <= x < s.start + s.len
    requires forall i :: 0 <= i < |spans| ==> Apart(s, spans[i])
    ensures x !in Covered(spans)
  {
    if spans != [] {
      assert Apart(s, spans[0]);
      Outside(spans[1..], s, x);
    }
  }

  lemma {:induction false} CoveredInside(spans: seq<Span>, lo: int, hi: int)
    requires forall i :: 0 <= i < |spans| && spans[i].len > 0 ==>
        lo <= spans[i].start && spans[i].start + spans[i].len <= hi
    ensures Covered(spans) <= Interval(lo, hi)
  {
    if spans != [] {
      CoveredInside(spans[1..], lo, hi);
    }
  }

  lemma {:induction false} CoveredSize(spans: seq<Span>)
    requires forall i, j :: 0 <= i < j < |spans| ==> Apart(spans[i], spans[j])
    ensures |Covered(spans)| == TotalLen(spans)
  {
    if spans != [] {
      var first, rest := Interval(spans[0].start, spans[0].start + spans[0].len), Covered(spans[1..]);
      CoveredSize(spans[1..]);
      IntervalSize(spans[0].start, spans[0].start + spans[0].len);
      forall x | x in first
        ensures x !in rest
      {
        Outside(spans[1..], spans[0], x);
      }
      assert first * rest == {};
      UnionSize(first, rest);
    }
  }

  lemma UnionSize(a: set<int>, b: set<int>)
    requires a * b == {}
    ensures |a + b| == |a| + |b|
  {
  }

  /** Disjoint spans inside an interval are together no longer than the interval. */
  lemma ApartFits(spans: seq<Span>, lo: int, hi: int)
    requires lo <= hi && AllApart(spans, lo, hi)
    ensures TotalLen(spans) <= hi - lo
  {
    CoveredSize(spans);
    CoveredInside(spans, lo, hi);
    IntervalSize(lo, hi);
    UnionSize(Covered(spans), Interval(lo, hi) - Covered(spans));
    assert Interval(lo, hi) == Covered(spans) + (Interval(lo, hi) - Covered(spans));
  }

  lemma {:induction false} SpansLen(spans: seq<Span>, ds: seq<seq<byte>>)
    requires |spans| == |ds| && forall i :: 0 <= i < |ds| ==> spans[i].len == |ds[i]|
    ensures TotalLen(spans) == |Concat(NonEmpty(ds))|
  {
    if ds != [] {
      SpansLen(spans[1..], ds[1..]);
      if ds[0] != [] {
        assert NonEmpty(ds)[1..] == NonEmpty(ds[1..]);
      } else {
        assert NonEmpty(ds) == NonEmpty(ds[1..]);
      }
    }
  }

  ghost predicate IsSpan(p: seq<byte>, k: nat, s: Span) {
    s.start == DataStart(p, k) && s.len == DataLen(p, k) == |Data(p, k)|
  }

  /** The data areas of lines 1 and up. */
  lemma PageSpans(p: seq<byte>) returns (spans: seq<Span>)
    requires WellFormedPage(p)
    ensures |spans| == |DataFrom(p, 1)| && forall i :: 0 <= i < |spans| ==> spans[i].len == |DataFrom(p, 1)[i]|
    ensures AllApart(spans, SIZE_OF_PAGE_HEADER + SIZE_OF_ITEM_ID * NLines(p), PAGE_SZ)
  {
    hide LpOff, LpLen, NLines;
    spans := seq(LinesFrom(p, 1), i requires 0 <= i => Span(DataStart(p, 1 + i), |Data(p, 1 + i)|));
    forall i | 0 <= i < |spans|
      ensures IsSpan(p, 1 + i, spans[i]) && spans[i].start + spans[i].len <= PAGE_SZ
    {
      assert ItemReadable(p, 1 + i);
    }
    forall i, j | 0 <= i < j < |spans|
      ensures Apart(spans[i], spans[j])
    {
      assert IsSpan(p, 1 + i, spans[i]) && IsSpan(p, 1 + j, spans[j]);
    }
    forall i | 0 <= i < |spans| && spans[i].len > 0
      ensures SIZE_OF_PAGE_HEADER + SIZE_OF_ITEM_ID * NLines(p) <= spans[i].start
    {
      assert IsSpan(p, 1 + i, spans[i]);
    }
  }

  lemma ItemsTotal(p: seq<byte>)
    requires WellFormedPage(p)
    ensures |Concat(Items(p, 1))| <= PAGE_SZ - SIZE_OF_PAGE_HEADER - SIZE_OF_ITEM_ID * NLines(p)
  {
    var spans := PageSpans(p);
    ApartFits(spans, SIZE_OF_PAGE_HEADER + SIZE_OF_ITEM_ID * NLines(p), PAGE_SZ);
    SpansLen(spans, DataFrom(p, 1));
  }

  lemma FirstLineEmpty(p: seq<byte>)
    requires DataLen(p, 0) == 0
    ensures Items(p, 0) == Items(p, 1)
  {
    ItemsStep(p, 0);
    assert Data(p, 0) == [];
  }

  /** A well-formed page never overfills the page it is repacked into or streamed out from. */
  lemma WellFormedFits(p: seq<byte>)
    requires WellFormedPage(p)
    ensures |Concat(Items(p, 0))| <= PAGE_SZ - SIZE_OF_PAGE_HEADER - SIZE_OF_ITEM_ID * NLines(p)
    ensures Fit(Items(p, 0), 0) == |Items(p, 0)|
  {
    ItemsTotal(p);
    FirstLineEmpty(p);
    FitAll(Items(p, 0), 0);
  }
}
