/**
  Tuples of the TPC-H lineitem table as PostgreSQL stores them, header removed: how the sixteen
  attributes are laid out, how a reader finds them again, and what Query 6 makes of them.
*/
module Lineitem {
  import opened Machine
  import Numeric

  const ATTRS: nat := 16

  // ----- reading: where attribute i begins and ends when the previous one ends at `off` -----

  /** Byte length of the fixed attributes; -1 for varlena ones. */
  function AttrLen(i: nat): int
    requires i < ATTRS
  {
    if i < 3 then 8 else if i == 3 then 4 else if 10 <= i <= 12 then 4 else -1
  }

  predicate Aligned(i: nat) {
    10 <= i <= 12
  }

  /** The next multiple of four. */
  function IntAlign(off: nat): (r: nat)
    ensures off <= r < off + 4 && r % 4 == 0
  {
    (off + 3) / 4 * 4
  }

  /** A varlena header byte of the short form: odd, and not the marker of a toasted value. */
  predicate ShortHeader(h: byte) {
    h % 2 == 1 && h != 1
  }

  function FieldStart(i: nat, off: nat): nat
    requires i < ATTRS
  {
    if AttrLen(i) == -1 then off + 1 else if Aligned(i) then IntAlign(off) else off
  }

  /** Length of attribute i; a varlena's header counts itself. */
  function FieldLen(bs: seq<byte>, i: nat, off: nat): nat
    requires i < ATTRS
  {
    if AttrLen(i) != -1 then AttrLen(i)
    else if off < |bs| && ShortHeader(bs[off]) then bs[off] as int / 2 - 1
    else 0
  }

  function FieldEnd(bs: seq<byte>, i: nat, off: nat): nat
    requires i < ATTRS
  {
    FieldStart(i, off) + FieldLen(bs, i, off)
  }

  predicate FieldOk(bs: seq<byte>, i: nat, off: nat)
    requires i < ATTRS
  {
    && (AttrLen(i) == -1 ==> off < |bs| && ShortHeader(bs[off]))
    && FieldEnd(bs, i, off) <= |bs|
  }

  /** Offset after the first i attributes. */
  function Off(bs: seq<byte>, i: nat): nat
    requires i <= ATTRS
  {
    if i == 0 then 0 else FieldEnd(bs, i - 1, Off(bs, i - 1))
  }

  function TupleLen(bs: seq<byte>): nat {
    Off(bs, ATTRS)
  }

  /** The first i attributes lie within bs and have readable headers. */
  predicate FieldsOk(bs: seq<byte>, i: nat)
    requires i <= ATTRS
  {
    i == 0 || (FieldsOk(bs, i - 1) && FieldOk(bs, i - 1, Off(bs, i - 1)))
  }

  predicate TupleOk(bs: seq<byte>) {
    FieldsOk(bs, ATTRS)
  }

  lemma {:induction false} FieldsOkAt(bs: seq<byte>, n: nat, i: nat)
    requires i < n <= ATTRS && FieldsOk(bs, n)
    ensures FieldOk(bs, i, Off(bs, i))
  {
    if i < n - 1 {
      FieldsOkAt(bs, n - 1, i);
    }
  }

  /** The stored bytes of attribute i. */
  function Payload(bs: seq<byte>, i: nat): seq<byte>
    requires i < ATTRS
  {
    var start, end := FieldStart(i, Off(bs, i)), FieldEnd(bs, i, Off(bs, i));
    if end <= |bs| then bs[start..end] else []
  }

  /** A stored row: the payloads of its attributes. */
  type RawRow = seq<seq<byte>>

  const QTY: nat := 4
  const EXT: nat := 5
  const DSC: nat := 6
  const SHP: nat := 10

  /** The payloads of the first i attributes. */
  function Payloads(bs: seq<byte>, i: nat): (r: RawRow)
    requires i <= ATTRS
    ensures |r| == i
  {
    if i == 0 then [] else Payloads(bs, i - 1) + [Payload(bs, i - 1)]
  }

  function RowAt(bs: seq<byte>): (r: RawRow)
    ensures |r| == ATTRS
  {
    Payloads(bs, ATTRS)
  }

  lemma {:induction false} PayloadsAt(bs: seq<byte>, n: nat, i: nat)
    requires i < n <= ATTRS
    ensures Payloads(bs, n)[i] == Payload(bs, i)
  {
    if i < n - 1 {
      PayloadsAt(bs, n - 1, i);
    }
  }

  predicate Readable(r: RawRow) {
    && |r| == ATTRS
    && Numeric.WellFormed(r[QTY]) && Numeric.WellFormed(r[EXT]) && Numeric.WellFormed(r[DSC]) && |r[SHP]| == 4
  }

  /** Among the first i attributes, the numerics that Query 6 uses are well formed. */
  predicate NumericsOk(bs: seq<byte>, i: nat)
    requires i <= ATTRS
  {
    i == 0 || (NumericsOk(bs, i - 1)
      && (i - 1 == QTY || i - 1 == EXT || i - 1 == DSC ==> Numeric.WellFormed(Payload(bs, i - 1))))
  }

  /** A tuple starts here whose numerics the decoder can read. */
  predicate RowOk(bs: seq<byte>) {
    TupleOk(bs) && NumericsOk(bs, ATTRS)
  }

  lemma {:induction false} NumericsOkAt(bs: seq<byte>, n: nat, i: nat)
    requires i < n <= ATTRS && NumericsOk(bs, n) && (i == QTY || i == EXT || i == DSC)
    ensures Numeric.WellFormed(Payload(bs, i))
  {
    if i < n - 1 {
      NumericsOkAt(bs, n - 1, i);
    }
  }

  lemma RowReadable(bs: seq<byte>)
    requires RowOk(bs)
    ensures Readable(RowAt(bs))
  {
    NumericsOkAt(bs, ATTRS, QTY);
    NumericsOkAt(bs, ATTRS, EXT);
    NumericsOkAt(bs, ATTRS, DSC);
    FieldsOkAt(bs, ATTRS, SHP);
    PayloadsAt(bs, ATTRS, QTY);
    PayloadsAt(bs, ATTRS, EXT);
    PayloadsAt(bs, ATTRS, DSC);
    PayloadsAt(bs, ATTRS, SHP);
  }

  lemma {:induction false} NumericsFromReadable(bs: seq<byte>, i: nat)
    requires i <= ATTRS && Readable(RowAt(bs))
    ensures NumericsOk(bs, i)
  {
    if i > 0 {
      PayloadsAt(bs, ATTRS, i - 1);
      NumericsFromReadable(bs, i - 1);
    }
  }

  lemma {:induction false} OffGrows(bs: seq<byte>, i: nat, j: nat)
    requires i <= j <= ATTRS
    ensures Off(bs, i) <= Off(bs, j)
  {
    if i < j {
      OffGrows(bs, i, j - 1);
    }
  }

  lemma TupleFits(bs: seq<byte>)
    requires TupleOk(bs)
    ensures 0 < TupleLen(bs) <= |bs|
  {
    OffGrows(bs, 1, ATTRS);
    FieldsOkAt(bs, ATTRS, ATTRS - 1);
  }

  /** What follows the first tuple. */
  function AfterTuple(bs: seq<byte>): seq<byte> {
    if TupleLen(bs) <= |bs| then bs[TupleLen(bs)..] else []
  }

  /** n tuples follow one another from the start of bs. */
  predicate RowsOk(bs: seq<byte>, n: nat)
    decreases n
  {
    n == 0 || (RowOk(bs) && RowsOk(AfterTuple(bs), n - 1))
  }

  function Rows(bs: seq<byte>, n: nat): (rows: seq<RawRow>)
    ensures |rows| == n
    decreases n
  {
    if n == 0 then [] else [RowAt(bs)] + Rows(AfterTuple(bs), n - 1)
  }

  /** What n tuples leave over. */
  function AfterRows(bs: seq<byte>, n: nat): seq<byte>
    decreases n
  {
    if n == 0 then bs else AfterRows(AfterTuple(bs), n - 1)
  }

  /** Row k of n is the tuple that starts where the first k end. */
  lemma {:induction false} RowsFrom(bs: seq<byte>, n: nat, k: nat)
    requires RowsOk(bs, n) && k < n
    ensures RowOk(AfterRows(bs, k)) && Rows(bs, n)[k] == RowAt(AfterRows(bs, k))
    ensures AfterRows(bs, k + 1) == AfterTuple(AfterRows(bs, k))
    decreases k
  {
    if k > 0 {
      RowsFrom(AfterTuple(bs), n - 1, k - 1);
    }
  }

  lemma AfterIsShorter(bs: seq<byte>)
    requires TupleOk(bs)
    ensures |AfterTuple(bs)| < |bs|
  {
    TupleFits(bs);
  }

  /** Tuples have bytes, so there are never more of them than bytes. */
  lemma {:induction false} RowsFewer(bs: seq<byte>, n: nat)
    requires RowsOk(bs, n)
    ensures n <= |bs|
    decreases n
  {
    if n > 0 {
      AfterIsShorter(bs);
      RowsFewer(AfterTuple(bs), n - 1);
    }
  }

  lemma {:induction false} RowsReadable(bs: seq<byte>, n: nat, j: nat)
    requires RowsOk(bs, n) && j < n
    ensures Readable(Rows(bs, n)[j])
    decreases n
  {
    if j == 0 {
      RowReadable(bs);
    } else {
      RowsReadable(AfterTuple(bs), n - 1, j - 1);
    }
  }

  // ----- Query 6 on stored rows, in the machine's 64-bit numbers -----

  const JD19940101: int := -2191
  const JD19950101: int := -1826

  function ReadLong(p: seq<byte>): int
    requires |p| >= 2
  {
    Int64(Numeric.Decoded(p))
  }

  /** Four little-endian bytes as a C `int`. */
  function ReadDate(p: seq<byte>): int
    requires |p| == 4
  {
    Int(p[0], p[1], p[2], p[3])
  }

  /** The bytes above b[i], highest first, one after the other. */
  function BytesAbove(b: seq<byte>, i: int): nat
    requires |b| >= 4 && -1 <= i <= 3
    decreases 3 - i
  {
    if i == 3 then 0 else BytesAbove(b, i + 1) * 256 + b[i + 1] as int
  }

  /** All four bytes stay below 2^32, and are the date but for the sign. */
  lemma WholeDate(b: seq<byte>)
    requires |b| >= 4
    ensures var whole := BytesAbove(b, -1);
            whole < TWO32 && Int(b[0], b[1], b[2], b[3]) == if whole < TWO31 then whole else whole - TWO32
  {
    assert BytesAbove(b, 1) == b[3] as int * 256 + b[2] as int;
    assert BytesAbove(b, -1) == (BytesAbove(b, 1) * 256 + b[1] as int) * 256 + b[0] as int;
  }

  /** The C routine `getJdate`, shifting in 32 bits from the highest byte down. */
  method GetJdate(fData: seq<byte>) returns (j: int)
    requires |fData| >= 4
    ensures j == ReadDate(fData[..4])
  {
    hide Int32, Int;
    WholeDate(fData);
    WrapsOnce(0);
    WrapsOnce(BytesAbove(fData, -1));
    j := 0;
    var i := 3;
    while i >= 0
      invariant -1 <= i <= 3 && j == Int32(BytesAbove(fData, i))
    {
      Int32Shift8(BytesAbove(fData, i), fData[i] as int);
      j := Int32(j * 256 + fData[i] as int);
      i := i - 1;
    }
  }

  predicate Selected(quantity: int, discount: int, shipDate: int) {
    JD19940101 <= shipDate < JD19950101 && 5 <= discount <= 7 && quantity < 2400
  }

  /** What a stored row adds to the sum. */
  function Contribution(r: RawRow): int {
    if Readable(r) && Selected(ReadLong(r[QTY]), ReadLong(r[DSC]), ReadDate(r[SHP]))
    then ReadLong(r[EXT]) * ReadLong(r[DSC])
    else 0
  }

  function SumRows(rows: seq<RawRow>): int {
    if rows == [] then 0 else SumRows(rows[..|rows| - 1]) + Contribution(rows[|rows| - 1])
  }

  lemma {:induction false} SumAppend(a: seq<RawRow>, b: seq<RawRow>)
    ensures SumRows(a + b) == SumRows(a) + SumRows(b)
    decreases |b|
  {
    if b == [] {
      assert a + b == a;
    } else {
      var b' := b[..|b| - 1];
      SumAppend(a, b');
      assert (a + b)[..|a + b| - 1] == a + b';
    }
  }

  lemma SumPrefix(rows: seq<RawRow>, i: nat)
    requires i < |rows|
    ensures SumRows(rows[..i + 1]) == SumRows(rows[..i]) + Contribution(rows[i])
  {
    assert rows[..i + 1][..i] == rows[..i];
  }
}
