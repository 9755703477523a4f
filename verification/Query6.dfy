/**
  The query on lineitem rows as the benchmark defines both: TPC Benchmark H, clause 1.4.1 for the columns
  and clause 2.4.6 for the sum, with prices and discounts as real numbers and dates of the calendar; the
  bytes PostgreSQL stores for a row; and the proof that the kernels' arithmetic on those bytes is the query.
*/
module Query6 {
  import opened Machine
  import C = Calendar
  import D = NumericLayout
  import N = Numeric
  import L = Layout
  import Lineitem

  // ----- columns -----

  datatype ColumnType = BigInt | Integer | DecimalType | Char | DateType | Varchar

  /** Three identifiers, a line number, four decimals, two flags, three dates, two short texts, a comment. */
  const COLUMNS: seq<ColumnType> := [
    BigInt, BigInt, BigInt, Integer, DecimalType, DecimalType, DecimalType, DecimalType, Char, Char,
    DateType, DateType, DateType, Char, Char, Varchar]

  /** Byte length; -1 for types with a header of their own. */
  function Length(ct: ColumnType): int {
    match ct
    case BigInt => 8
    case Integer => 4
    case DateType => 4
    case _ => -1
  }

  /** Alignment; values with a one-byte header have none. */
  function Alignment(ct: ColumnType): nat {
    match ct
    case BigInt => 8
    case Integer => 4
    case DateType => 4
    case _ => 1
  }

  function RoundUp(off: nat, a: nat): nat
    requires a > 0
  {
    (off + a - 1) / a * a
  }

  /**
    The parsers' tables of lengths and alignment flags are those of the column types: although they align dates only,
    every fixed-length column begins where its type's alignment puts it.
  */
  lemma TablesAreTyped(bs: seq<byte>, i: nat)
    requires i < 16
    ensures Lineitem.AttrLen(i) == Length(COLUMNS[i])
    ensures Length(COLUMNS[i]) != -1 ==>
              Lineitem.FieldStart(i, Lineitem.Off(bs, i)) == RoundUp(Lineitem.Off(bs, i), Alignment(COLUMNS[i]))
  {
    if i < 4 {
      FirstOffsets(bs);
    }
  }

  lemma FirstOffsets(bs: seq<byte>)
    ensures Lineitem.Off(bs, 0) == 0 && Lineitem.Off(bs, 1) == 8 && Lineitem.Off(bs, 2) == 16
    ensures Lineitem.Off(bs, 3) == 24 && Lineitem.Off(bs, 4) == 28
  {
  }

  // ----- rows -----

  /** A row: the columns that the query uses as what they mean, the others as their bytes; and alignment gaps. */
  datatype Line = Line(
    orderKey: seq<byte>, partKey: seq<byte>, suppKey: seq<byte>, lineNumber: seq<byte>,
    quantity: D.Decimal, price: D.Decimal, discount: D.Decimal, tax: seq<byte>, returnFlag: seq<byte>,
      lineStatus: seq<byte>,
    shipDate: C.Date, commitDate: seq<byte>, receiptDate: seq<byte>,
    instruct: seq<byte>, mode: seq<byte>, comment: seq<byte>, gap: seq<byte>)

  /** A decimal(15,2) column: at most 16 digits before the point, and a whole number of hundredths. */
  ghost predicate Money(d: D.Decimal) {
    D.Valid(d) && -1 <= d.weight <= 3 && exists cents: int :: IsCents(d, cents)
  }

  predicate IsCents(d: D.Decimal, cents: int) {
    100.0 * D.Value(d) == cents as real
  }

  /** Days since the first of January 2000, as the database counts them. */
  function DaysSinceEpoch(t: C.Date): int {
    C.DayNumber(t) - C.DayNumber(C.EPOCH)
  }

  ghost predicate ValidLine(l: Line) {
    && |l.orderKey| == |l.partKey| == |l.suppKey| == 8
    && |l.lineNumber| == |l.commitDate| == |l.receiptDate| == 4 && |l.gap| == 3
    && Money(l.quantity) && Money(l.price) && Money(l.discount)
    && |l.tax| <= 126 && |l.returnFlag| <= 126 && |l.lineStatus| <= 126
    && |l.instruct| <= 126 && |l.mode| <= 126 && |l.comment| <= 126
    && C.Covered(l.shipDate) && -TWO31 <= DaysSinceEpoch(l.shipDate) < TWO31
  }

  // ----- clause 2.4.6 -----

  /**
    l_shipdate >= '1994-01-01' and < one year later, l_discount between 0.06 - 0.01 and 0.06 + 0.01, l_quantity < 24.
  */
  predicate Qualifies(l: Line) {
    && !C.Before(l.shipDate, C.Date(1994, 1, 1)) && C.Before(l.shipDate, C.Date(1995, 1, 1))
    && 0.06 - 0.01 <= D.Value(l.discount) <= 0.06 + 0.01
    && D.Value(l.quantity) < 24.0
  }

  /** sum(l_extendedprice * l_discount) over the qualifying rows. */
  function Answer(lines: seq<Line>): real {
    if lines == [] then 0.0
    else
      var l := lines[|lines| - 1];
      Answer(lines[..|lines| - 1]) + if Qualifies(l) then D.Value(l.price) * D.Value(l.discount) else 0.0
  }

  // ----- what is stored -----

  /** A value with a one-byte header: its length, the header included, and the mark of the short form. */
  function Var(v: seq<byte>): (bs: seq<byte>)
    requires |v| <= 126
    ensures |bs| == |v| + 1
  {
    [2 * (|v| + 1) + 1] + v
  }

  /** A date: four bytes, lowest first, two's complement. */
  function DateBytes(t: C.Date): (bs: seq<byte>)
    ensures |bs| == 4
  {
    var d := DaysSinceEpoch(t);
    [d % 256, d / 256 % 256, d / 256 / 256 % 256, d / 256 / 256 / 256 % 256]
  }

  /** Columns 1 to 10: eight, eight, eight and four bytes, then six values with headers. */
  function Front(l: Line): (bs: seq<byte>)
    requires ValidLine(l)
  {
    l.orderKey + l.partKey + l.suppKey + l.lineNumber
    + Var(D.Stored(l.quantity)) + Var(D.Stored(l.price)) + Var(D.Stored(l.discount))
    + Var(l.tax) + Var(l.returnFlag) + Var(l.lineStatus)
  }

  /** Gap bytes up to the next multiple of four. */
  function Padding(l: Line, n: nat): (bs: seq<byte>)
    requires |l.gap| == 3
    ensures (n + |bs|) % 4 == 0 && |bs| < 4
  {
    l.gap[..(4 - n % 4) % 4]
  }

  /** The whole tuple. */
  function Stored(l: Line): seq<byte>
    requires ValidLine(l)
  {
    Front(l) + Padding(l, |Front(l)|) + DateBytes(l.shipDate) + l.commitDate + l.receiptDate
    + Var(l.instruct) + Var(l.mode) + Var(l.comment)
  }

  // ----- it is the layout that the parsers read -----

  function AsTuple(l: Line): (t: L.Tuple)
    requires ValidLine(l)
    ensures |t.attrs| == 16
  {
    L.Tuple([l.orderKey, l.partKey, l.suppKey, l.lineNumber, D.Stored(l.quantity), D.Stored(l.price),
      D.Stored(l.discount),
             l.tax, l.returnFlag, l.lineStatus, DateBytes(l.shipDate), l.commitDate, l.receiptDate,
             l.instruct, l.mode, l.comment], l.gap)
  }

  lemma TupleShaped(l: Line)
    requires ValidLine(l)
    ensures L.Shaped(AsTuple(l))
  {
    hide D.Stored, DateBytes, C.Covered, DaysSinceEpoch;
    assert |D.Stored(l.quantity)| <= 14 && |D.Stored(l.price)| <= 14 && |D.Stored(l.discount)| <= 14;
  }

  lemma OneMore(t: L.Tuple, i: nat, so: seq<byte>, piece: seq<byte>)
    requires L.Shaped(t) && i < 16 && L.Encoded(t, i) == so && L.Written(t, i, |so|) == piece
    ensures L.Encoded(t, i + 1) == so + piece
  {
  }

  lemma FrontIsEncoded(l: Line)
    requires ValidLine(l)
    ensures L.Shaped(AsTuple(l)) && L.Encoded(AsTuple(l), 10) == Front(l)
  {
    hide D.Stored, DateBytes, C.Covered, DaysSinceEpoch, L.Shaped, L.Encoded, Money;
    TupleShaped(l);
    var t := AsTuple(l);
    NothingEncoded(t);
    Numbers(l);
    assert [] + l.orderKey == l.orderKey;
    OneMore(t, 0, [], l.orderKey);
    var s := l.orderKey;
    OneMore(t, 1, s, l.partKey);
    s := s + l.partKey;
    OneMore(t, 2, s, l.suppKey);
    s := s + l.suppKey;
    OneMore(t, 3, s, l.lineNumber);
    s := s + l.lineNumber;
    OneMore(t, 4, s, Var(D.Stored(l.quantity)));
    s := s + Var(D.Stored(l.quantity));
    OneMore(t, 5, s, Var(D.Stored(l.price)));
    s := s + Var(D.Stored(l.price));
    OneMore(t, 6, s, Var(D.Stored(l.discount)));
    s := s + Var(D.Stored(l.discount));
    OneMore(t, 7, s, Var(l.tax));
    s := s + Var(l.tax);
    OneMore(t, 8, s, Var(l.returnFlag));
    s := s + Var(l.returnFlag);
    OneMore(t, 9, s, Var(l.lineStatus));
  }

  lemma Numbers(l: Line)
    requires ValidLine(l)
    ensures D.Valid(l.quantity) && D.Valid(l.price) && D.Valid(l.discount)
    ensures |D.Stored(l.quantity)| <= 14 && |D.Stored(l.price)| <= 14 && |D.Stored(l.discount)| <= 14
  {
    hide D.Stored;
  }

  lemma NothingEncoded(t: L.Tuple)
    requires L.Shaped(t)
    ensures L.Encoded(t, 0) == []
  {
  }

  /** The gap that the layout leaves is the padding, and none follows between dates. */
  lemma PaddingIsGap(l: Line, n: nat)
    requires |l.gap| == 3
    ensures Lineitem.IntAlign(n) - n == |Padding(l, n)| && l.gap[..Lineitem.IntAlign(n) - n] == Padding(l, n)
    ensures n % 4 == 0 ==> Padding(l, n) == []
  {
  }

  /** The stored bytes, given outright, are those of the layout. */
  lemma StoredIsEncoded(l: Line)
    requires ValidLine(l)
    ensures L.Shaped(AsTuple(l)) && L.Encode(AsTuple(l)) == Stored(l)
  {
    hide D.Stored, DateBytes, C.Covered, DaysSinceEpoch, L.Shaped, L.Encoded, Front, Money, Padding, Lineitem.IntAlign;
    FrontIsEncoded(l);
    var t, s := AsTuple(l), Front(l);
    PaddingIsGap(l, |s|);
    OneMore(t, 10, s, Padding(l, |s|) + DateBytes(l.shipDate));
    s := s + (Padding(l, |s|) + DateBytes(l.shipDate));
    assert s == Front(l) + Padding(l, |Front(l)|) + DateBytes(l.shipDate);
    PaddingIsGap(l, |s|);
    assert [] + l.commitDate == l.commitDate;
    OneMore(t, 11, s, l.commitDate);
    s := s + l.commitDate;
    PaddingIsGap(l, |s|);
    assert [] + l.receiptDate == l.receiptDate;
    OneMore(t, 12, s, l.receiptDate);
    s := s + l.receiptDate;
    OneMore(t, 13, s, Var(l.instruct));
    s := s + Var(l.instruct);
    OneMore(t, 14, s, Var(l.mode));
    s := s + Var(l.mode);
    OneMore(t, 15, s, Var(l.comment));
  }

  lemma StoredNotEmpty(l: Line)
    requires ValidLine(l)
    ensures Stored(l) != []
  {
    hide Front, Money;
    assert |Stored(l)| >= 4;
  }

  // ----- what the parsers find -----

  /**
    Byte by byte: the first columns at 0, 8, 16 and 24, then values behind one-byte headers, a multiple of four for
    dates.
  */
  lemma ParsersFind(l: Line, rest: seq<byte>)
    requires ValidLine(l)
    ensures var bs := Stored(l) + rest;
            && Lineitem.TupleOk(bs) && Lineitem.AfterTuple(bs) == rest
            && Lineitem.FieldStart(4, Lineitem.Off(bs, 4)) == 29
            && Lineitem.FieldStart(10, Lineitem.Off(bs, 10)) == |Front(l)| + |Padding(l, |Front(l)|)|
            && Lineitem.RowAt(bs) == AsTuple(l).attrs
  {
    hide D.Stored, DateBytes, C.Covered, DaysSinceEpoch, L.Shaped, L.Encoded, Front, Money, Padding, Lineitem.IntAlign;
    hide Lineitem.FieldsOk, Lineitem.Off, Lineitem.RowAt;
    var t, bs := AsTuple(l), Stored(l) + rest;
    StoredIsEncoded(l);
    L.ParseInvertsLayout(t, rest);
    L.RowReadsBack(t, rest);
    FirstOffsets(bs);
    L.OffsetsAgree(t, 10, bs);
    FrontIsEncoded(l);
    PaddingIsGap(l, |Front(l)|);
  }

  // ----- the sum -----

  lemma CentsRead(d: D.Decimal)
    requires Money(d)
    ensures 100.0 * D.Value(d) == N.Hundredths(D.Stored(d)) as real && L.Decimal15(D.Stored(d))
  {
    hide D.Stored, D.Value, D.Truncated, N.Hundredths, N.WellFormed, N.Weight, N.Negative;
    var cents: int :| IsCents(d, cents);
    D.HundredthsOf(d);
    NothingCut(100.0 * D.Value(d), cents);
    D.StoredIsWellFormed(d);
    D.HeaderReads(d);
  }

  lemma NothingCut(x: real, cents: int)
    requires x == cents as real
    ensures D.Truncated(x) == cents
  {
  }

  lemma DateReads(t: C.Date)
    requires -TWO31 <= DaysSinceEpoch(t) < TWO31
    ensures Lineitem.ReadDate(DateBytes(t)) == DaysSinceEpoch(t)
  {
    hide DaysSinceEpoch;
    L.DateReadsBack(DaysSinceEpoch(t), DateBytes(t));
  }

  /** Of all dates only the ship date itself has its number. */
  lemma ShippedIn1994(t: C.Date)
    requires C.Covered(t)
    ensures L.DateOf(1994, DaysSinceEpoch(t)) <==> !C.Before(t, C.Date(1994, 1, 1)) && C.Before(t, C.Date(1995, 1, 1))
  {
    hide C.DayNumber, C.Covered;
    C.InOrder(t);
    if t.y == 1994 {
      assert C.DayNumber(t) == DaysSinceEpoch(t) + C.DayNumber(C.EPOCH);
    }
    if L.DateOf(1994, DaysSinceEpoch(t)) {
      var u :| C.Covered(u) && u.y == 1994 && C.DayNumber(u) == DaysSinceEpoch(t) + C.DayNumber(C.EPOCH);
      C.SameNumberSameDate(t, u);
    }
  }

  /** What the machine adds for a row is ten thousand times what the query adds. */
  lemma RevenueIsAnswer(l: Line)
    requires ValidLine(l)
    ensures L.WellFormedTuple(AsTuple(l))
    ensures L.Revenue(AsTuple(l)) as real
         == 10000.0 * if Qualifies(l) then D.Value(l.price) * D.Value(l.discount) else 0.0
  {
    hide D.Stored, D.Value, DateBytes, C.Covered, L.Shaped, L.Decimal15, Money, N.Hundredths, L.DateOf, DaysSinceEpoch;
    TupleShaped(l);
    CentsRead(l.quantity);
    CentsRead(l.price);
    CentsRead(l.discount);
    DateReads(l.shipDate);
    ShippedIn1994(l.shipDate);
    var t := AsTuple(l);
    var p, d := N.Hundredths(t.attrs[5]), N.Hundredths(t.attrs[6]);
    if 5 <= d <= 7 {
      TimesFew(p, d, D.Value(l.price), D.Value(l.discount));
    }
  }

  lemma TimesFew(p: int, d: int, x: real, y: real)
    requires 5 <= d <= 7 && 100.0 * x == p as real && 100.0 * y == d as real
    ensures (p * d) as real == 10000.0 * (x * y)
  {
    if d == 5 {
      assert y == 0.05;
    } else if d == 6 {
      assert y == 0.06;
    } else {
      assert y == 0.07;
    }
  }

  function Tuples(lines: seq<Line>): (ts: seq<L.Tuple>)
    requires forall k :: 0 <= k < |lines| ==> ValidLine(lines[k])
    ensures |ts| == |lines| && forall k :: 0 <= k < |ts| ==> ts[k] == AsTuple(lines[k])
  {
    seq(|lines|, k requires 0 <= k < |lines| => AsTuple(lines[k]))
  }

  /** The revenue that the drivers return is the query's answer, in units of a ten-thousandth. */
  lemma {:induction false} TotalIsAnswer(lines: seq<Line>)
    requires forall k :: 0 <= k < |lines| ==> ValidLine(lines[k])
    ensures L.AllWellFormed(Tuples(lines)) && L.TotalRevenue(Tuples(lines)) as real == 10000.0 * Answer(lines)
  {
    hide ValidLine, L.WellFormedTuple, L.Revenue, Qualifies, AsTuple, D.Value;
    forall k | 0 <= k < |lines|
      ensures L.WellFormedTuple(Tuples(lines)[k])
    {
      RevenueIsAnswer(lines[k]);
    }
    if lines != [] {
      var n := |lines| - 1;
      TotalIsAnswer(lines[..n]);
      assert Tuples(lines)[..n] == Tuples(lines[..n]);
      RevenueIsAnswer(lines[n]);
    }
  }
}
