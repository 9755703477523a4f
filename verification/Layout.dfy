/**
  Writing lineitem tuples: the layout that PostgreSQL's short varlena headers and integer alignment
  give sixteen attribute values, and the proof that reading undoes it.
*/
module Layout {
  import opened Machine
  import opened Lineitem
  import Numeric
  import C = Calendar

  /** Attribute values, and the bytes that happen to fill alignment gaps. */
  datatype Tuple = Tuple(attrs: seq<seq<byte>>, gap: seq<byte>)

  /** A varlena length that fits the seven bits of a short header, which counts itself. */
  const MAX_SHORT: nat := 126

  predicate Shaped(t: Tuple) {
    && |t.attrs| == ATTRS && |t.gap| == 3
    && forall i: nat :: i < ATTRS ==> if AttrLen(i) == -1 then |t.attrs[i]| <= MAX_SHORT else |t.attrs[i]| == AttrLen(i)
  }

  /** Decimals of at most 15 digits, two of them after the point: weight -1 to 3. */
  predicate Decimal15(p: seq<byte>) {
    Numeric.WellFormed(p) && -1 <= Numeric.Weight(p) <= 3
  }

  predicate WellFormedTuple(t: Tuple) {
    Shaped(t) && Decimal15(t.attrs[QTY]) && Decimal15(t.attrs[EXT]) && Decimal15(t.attrs[DSC])
  }

  /** SET_VARSIZE_1B for a payload of n bytes. */
  function Header(n: nat): byte
    requires n <= MAX_SHORT
  {
    (n + 1) * 2 + 1
  }

  /** Attribute i as written when the tuple is `off` bytes long so far. */
  function Written(t: Tuple, i: nat, off: nat): seq<byte>
    requires Shaped(t) && i < ATTRS
  {
    if AttrLen(i) == -1 then [Header(|t.attrs[i]|)] + t.attrs[i]
    else if Aligned(i) then t.gap[..IntAlign(off) - off] + t.attrs[i]
    else t.attrs[i]
  }

  /** The first i attributes. */
  function Encoded(t: Tuple, i: nat): seq<byte>
    requires Shaped(t) && i <= ATTRS
  {
    if i == 0 then [] else Encoded(t, i - 1) + Written(t, i - 1, |Encoded(t, i - 1)|)
  }

  function Encode(t: Tuple): seq<byte>
    requires Shaped(t)
  {
    Encoded(t, ATTRS)
  }

  lemma {:induction false} EncodedPrefix(t: Tuple, i: nat, j: nat)
    requires Shaped(t) && i <= j <= ATTRS
    ensures Encoded(t, i) <= Encoded(t, j)
  {
    if i < j {
      EncodedPrefix(t, i, j - 1);
    }
  }

  /** The bytes of attribute i sit at its place in anything that starts with the written tuple. */
  lemma WrittenAt(t: Tuple, i: nat, bs: seq<byte>)
    requires Shaped(t) && i < ATTRS && Encoded(t, i + 1) <= bs
    ensures var off, w := |Encoded(t, i)|, Written(t, i, |Encoded(t, i)|);
            off + |w| == |Encoded(t, i + 1)| <= |bs| && bs[off..off + |w|] == w
  {
    var off, w := |Encoded(t, i)|, Written(t, i, |Encoded(t, i)|);
    assert Encoded(t, i + 1) == Encoded(t, i) + w;
    assert bs[..off + |w|] == Encoded(t, i + 1);
  }

  /** Reading attribute i of a written tuple, whatever follows it, finds the value at its place. */
  lemma ReadWritten(t: Tuple, i: nat, bs: seq<byte>)
    requires Shaped(t) && i < ATTRS && Encoded(t, i + 1) <= bs
    ensures var off := |Encoded(t, i)|;
            FieldOk(bs, i, off) && FieldEnd(bs, i, off) == |Encoded(t, i + 1)|
            && bs[FieldStart(i, off)..FieldEnd(bs, i, off)] == t.attrs[i]
  {
    WrittenAt(t, i, bs);
    var off, w := |Encoded(t, i)|, Written(t, i, |Encoded(t, i)|);
    var v := t.attrs[i];
    if AttrLen(i) == -1 {
      assert bs[off] == w[0] == Header(|v|);
      assert bs[off + 1..off + |w|] == w[1..] == v;
    } else if Aligned(i) {
      var skipped := IntAlign(off) - off;
      assert bs[off + skipped..off + |w|] == w[skipped..] == v;
    }
  }

  lemma {:induction false} OffsetsAgree(t: Tuple, i: nat, bs: seq<byte>)
    requires Shaped(t) && i <= ATTRS && Encode(t) <= bs
    ensures Off(bs, i) == |Encoded(t, i)|
  {
    if i > 0 {
      OffsetsAgree(t, i - 1, bs);
      EncodedPrefix(t, i, ATTRS);
      ReadWritten(t, i - 1, bs);
    }
  }

  lemma {:induction false} WrittenFieldsOk(t: Tuple, i: nat, bs: seq<byte>)
    requires Shaped(t) && i <= ATTRS && Encode(t) <= bs
    ensures FieldsOk(bs, i)
  {
    if i > 0 {
      WrittenFieldsOk(t, i - 1, bs);
      OffsetsAgree(t, i - 1, bs);
      EncodedPrefix(t, i, ATTRS);
      ReadWritten(t, i - 1, bs);
    }
  }

  lemma PayloadReadsBack(t: Tuple, i: nat, bs: seq<byte>)
    requires Shaped(t) && i < ATTRS && Encode(t) <= bs
    ensures Payload(bs, i) == t.attrs[i]
  {
    OffsetsAgree(t, i, bs);
    EncodedPrefix(t, i + 1, ATTRS);
    ReadWritten(t, i, bs);
  }

  /** Parsing undoes layout: every payload comes back, and the tuple ends at its last byte. */
  lemma ParseInvertsLayout(t: Tuple, rest: seq<byte>)
    requires Shaped(t)
    ensures TupleOk(Encode(t) + rest) && TupleLen(Encode(t) + rest) == |Encode(t)|
    ensures forall i: nat :: i < ATTRS ==> Payload(Encode(t) + rest, i) == t.attrs[i]
  {
    var bs := Encode(t) + rest;
    OffsetsAgree(t, ATTRS, bs);
    WrittenFieldsOk(t, ATTRS, bs);
    forall i: nat | i < ATTRS
      ensures Payload(bs, i) == t.attrs[i]
    {
      PayloadReadsBack(t, i, bs);
    }
  }

  lemma RowReadsBack(t: Tuple, rest: seq<byte>)
    requires Shaped(t)
    ensures RowAt(Encode(t) + rest) == t.attrs
  {
    var bs := Encode(t) + rest;
    forall i: nat | i < ATTRS
      ensures RowAt(bs)[i] == t.attrs[i]
    {
      PayloadsAt(bs, ATTRS, i);
      PayloadReadsBack(t, i, bs);
    }
  }

  // ----- Query 6 on values -----

  function Quantity(t: Tuple): int
    requires WellFormedTuple(t)
  {
    Numeric.Hundredths(t.attrs[QTY])
  }

  function ExtPrice(t: Tuple): int
    requires WellFormedTuple(t)
  {
    Numeric.Hundredths(t.attrs[EXT])
  }

  function Discount(t: Tuple): int
    requires WellFormedTuple(t)
  {
    Numeric.Hundredths(t.attrs[DSC])
  }

  function ShipDate(t: Tuple): int
    requires WellFormedTuple(t)
  {
    ReadDate(t.attrs[SHP])
  }

  /** Some date of the year is d days after the database's epoch. */
  ghost predicate DateOf(year: int, d: int) {
    exists t: C.Date :: C.Covered(t) && t.y == year && C.DayNumber(t) == d + C.DayNumber(C.EPOCH)
  }

  /**
    What the tuple adds to Query 6, in exact arithmetic on hundredths: price times discount, if it was shipped in
    1994 at a discount within 0.01 of 0.06 and a quantity below 24.
  */
  ghost function Revenue(t: Tuple): int
    requires WellFormedTuple(t)
  {
    if DateOf(1994, ShipDate(t)) && -1 <= Discount(t) - 6 <= 1 && Quantity(t) < 24 * 100 then ExtPrice(t) * Discount(t)
    else 0
  }

  /** The condition that the machine evaluates is that condition. */
  lemma SelectedExactly(quantity: int, discount: int, shipDate: int)
    ensures Selected(quantity, discount, shipDate)
       <==> DateOf(1994, shipDate) && -1 <= discount - 6 <= 1 && quantity < 24 * 100
  {
    hide C.DayNumber, C.Covered;
    if JD19940101 <= shipDate < JD19950101 {
      var t := DateAt(shipDate);
      C.YearOf1994(t);
    }
    if DateOf(1994, shipDate) {
      var t :| C.Covered(t) && t.y == 1994 && C.DayNumber(t) == shipDate + C.DayNumber(C.EPOCH);
      C.YearOf1994(t);
    }
  }

  lemma DateAt(d: int) returns (t: C.Date)
    requires d >= -2191
    ensures C.Covered(t) && C.DayNumber(t) == d + C.DayNumber(C.EPOCH)
  {
    hide C.DayNumber, C.Covered, C.DateOf, C.Corrected;
    C.EpochNumber();
    var n := d + 2451545 + 32044;
    C.Located(n);
    t := C.DateOf(C.Corrected(n) / 1461, C.Corrected(n) % 1461);
  }

  predicate AllWellFormed(ts: seq<Tuple>) {
    forall i :: 0 <= i < |ts| ==> WellFormedTuple(ts[i])
  }

  ghost function TotalRevenue(ts: seq<Tuple>): int
    requires AllWellFormed(ts)
  {
    if ts == [] then 0 else TotalRevenue(ts[..|ts| - 1]) + Revenue(ts[|ts| - 1])
  }

  /** A stored tuple is readable and contributes exactly its revenue. */
  lemma ContributionIsRevenue(t: Tuple, rest: seq<byte>)
    requires WellFormedTuple(t)
    ensures var bs := Encode(t) + rest;
            RowOk(bs) && TupleLen(bs) == |Encode(t)| && Contribution(RowAt(bs)) == Revenue(t)
  {
    hide Selected, DateOf, Encode, ReadDate, NumericsOk, FieldsOk, Numeric.Hundredths, Numeric.Decoded, Int64;
    hide Numeric.WellFormed, Numeric.Weight;
    ParseInvertsLayout(t, rest);
    RowReadsBack(t, rest);
    ValuesReadable(t);
    Numeric.SmallWeightFits(t.attrs[QTY]);
    Numeric.SmallWeightFits(t.attrs[EXT]);
    Numeric.SmallWeightFits(t.attrs[DSC]);
    NumericsFromReadable(Encode(t) + rest, ATTRS);
    SelectedExactly(Quantity(t), Discount(t), ShipDate(t));
  }

  lemma ValuesReadable(t: Tuple)
    requires WellFormedTuple(t)
    ensures Readable(t.attrs)
  {
    hide Numeric.WellFormed, Numeric.Weight;
  }

  /** A date stored as four little-endian bytes reads back as itself, before and after the epoch. */
  lemma DateReadsBack(d: int, p: seq<byte>)
    requires -TWO31 <= d < TWO31 && |p| == 4
    requires p[0] as int == d % 256 && p[1] as int == d / 256 % 256
    requires p[2] as int == d / 256 / 256 % 256 && p[3] as int == d / 256 / 256 / 256 % 256
    ensures ReadDate(p) == d
  {
    var q1 := d / 256;
    var q2 := q1 / 256;
    var q3 := q2 / 256;
    assert d == 256 * q1 + p[0] as int && q1 == 256 * q2 + p[1] as int && q2 == 256 * q3 + p[2] as int;
    assert -128 <= q3 < 128;
    assert p[3] as int == if q3 >= 0 then q3 else q3 + 256;
  }
}
