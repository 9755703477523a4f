/**
  The stages behind the header of one processing unit, a byte at a time: what the parser, the four
  decoders and the aggregator hold after any number of bytes, and that in the end it is the page's sum.
*/
module PageParse {
  import opened Machine
  import opened Lineitem
  import K = Kernel

  /** The local state of each process: its place in its loops and the values it holds. */
  datatype Local =
    | Feeder(k: nat)
    | Header(page: seq<byte>, pc: nat)
    | AwaitCount
    | Parser(n: nat, t: nat, fPtr: nat, cur: seq<byte>, pgOff: nat)
    | Decoder(n: nat, i: nat)
    | Sending(n: nat, i: nat, x: int)
    | Adder(n: nat, i: nat, vals: seq<int>, sum: int)
    | Done(sum: int)

  /** The four decoder columns and the attributes they carry, as in the kernel's stages. */
  predicate IsColumn(fPtr: nat) {
    fPtr == QTY || fPtr == EXT || fPtr == DSC || fPtr == SHP
  }

  function ColumnOf(fPtr: nat): (col: nat)
    ensures col < 4 && (IsColumn(fPtr) ==> K.AttrOf(col) == fPtr)
  {
    if fPtr == QTY then 0 else if fPtr == EXT then 1 else if fPtr == DSC then 2 else 3
  }

  /** The last byte of `cur`, the current tuple so far, is the last byte of attribute fPtr. */
  predicate HasField(cur: seq<byte>, fPtr: nat) {
    fPtr < ATTRS && FieldEnd(cur, fPtr, Off(cur, fPtr)) == |cur|
  }

  function NextField(l: Local): Local
    requires l.Parser?
  {
    if l.fPtr + 1 == ATTRS then l.(t := l.t + 1, fPtr := 0, cur := []) else l.(fPtr := l.fPtr + 1)
  }

  /** The parser stops to hand a field on before it takes another byte. */
  predicate HasToSend(l: Local) {
    l.Parser? && l.t < l.n && IsColumn(l.fPtr) && HasField(l.cur, l.fPtr)
  }

  function ParserGot(l: Local, b: byte): Local
    requires l.Parser?
  {
    var r := l.(pgOff := l.pgOff + 1);
    if l.t == l.n then r else
    var s := r.(cur := l.cur + [b]);
    if HasField(s.cur, s.fPtr) && !IsColumn(s.fPtr) then NextField(s) else s
  }

  function FieldSent(l: Local): seq<byte>
    requires l.Parser? && l.fPtr < ATTRS
  {
    Payload(l.cur, l.fPtr)
  }

  function Decode(col: nat, p: seq<byte>): int {
    if col < 3 then (if |p| >= 2 then ReadLong(p) else 0) else if |p| == 4 then ReadDate(p) else 0
  }

  function AdderGot(l: Local, x: int): Local
    requires l.Adder?
  {
    if |l.vals| < 3 then l.(vals := l.vals + [x])
    else Adder(l.n, l.i + 1, [], K.Accumulate(l.sum, l.vals[0], l.vals[1], l.vals[2], x))
  }

  /** Everything behind the header. */
  datatype Tail = Tail(parser: Local, decoders: seq<Local>, adder: Local)

  /** A field passes through its decoder to the aggregator. */
  function PassOn(d: Tail, col: nat, p: seq<byte>): Tail {
    if col < |d.decoders| && d.decoders[col].Decoder? && d.adder.Adder? && d.parser.Parser?
    then Tail(NextField(d.parser), d.decoders[col := Decoder(d.decoders[col].n, d.decoders[col].i + 1)],
      AdderGot(d.adder, Decode(col, p)))
    else d
  }

  /** One byte arrives at the parser, and what it completes goes all the way. */
  function OneByte(d: Tail, b: byte): Tail {
    if !d.parser.Parser? then d else
    var e := d.(parser := ParserGot(d.parser, b));
    if HasToSend(e.parser) then PassOn(e, ColumnOf(e.parser.fPtr), FieldSent(e.parser)) else e
  }

  function Feed(d: Tail, bs: seq<byte>): Tail {
    if bs == [] then d else OneByte(Feed(d, bs[..|bs| - 1]), bs[|bs| - 1])
  }

  lemma {:induction false} FeedAppend(d: Tail, a: seq<byte>, b: seq<byte>)
    ensures Feed(d, a + b) == Feed(Feed(d, a), b)
    decreases |b|
  {
    if b == [] {
      assert a + b == a;
    } else {
      FeedAppend(d, a, b[..|b| - 1]);
      assert (a + b)[..|a + b| - 1] == a + b[..|b| - 1];
    }
  }

  // ----- what each process holds when it is about to see attribute fPtr of tuple t -----

  function ValuesUpTo(r: RawRow, fPtr: nat): (vals: seq<int>) {
    if fPtr <= QTY || fPtr > SHP then []
    else if fPtr <= EXT then [K.Value(r, 0)]
    else if fPtr <= DSC then [K.Value(r, 0), K.Value(r, 1)]
    else [K.Value(r, 0), K.Value(r, 1), K.Value(r, 2)]
  }

  function DecoderAt(n: nat, t: nat, fPtr: nat, col: nat): Local {
    Decoder(n, if fPtr > K.AttrOf(col) then t + 1 else t)
  }

  function DecodersAt(n: nat, t: nat, fPtr: nat): (ds: seq<Local>)
    ensures |ds| == 4
  {
    [DecoderAt(n, t, fPtr, 0), DecoderAt(n, t, fPtr, 1), DecoderAt(n, t, fPtr, 2), DecoderAt(n, t, fPtr, 3)]
  }

  function RowOrEmpty(rows: seq<RawRow>, t: nat): RawRow {
    if t < |rows| then rows[t] else []
  }

  function SumTo(rows: seq<RawRow>, i: nat): int {
    if i <= |rows| then Int64(SumRows(rows[..i])) else 0
  }

  function AdderAt(rows: seq<RawRow>, t: nat, fPtr: nat): Local {
    var i := if fPtr > SHP then t + 1 else t;
    Adder(|rows|, i, ValuesUpTo(RowOrEmpty(rows, t), fPtr), SumTo(rows, i))
  }

  function TailAt(rows: seq<RawRow>, t: nat, fPtr: nat, cur: seq<byte>, pgOff: nat): Tail {
    Tail(Parser(|rows|, t, fPtr, cur, pgOff), DecodersAt(|rows|, t, fPtr), AdderAt(rows, t, fPtr))
  }

  /** All processes have read the count and nothing else. */
  function Started(n: nat): Tail {
    Tail(Parser(n, 0, 0, [], 0), [Decoder(n, 0), Decoder(n, 0), Decoder(n, 0), Decoder(n, 0)], Adder(n, 0, [], 0))
  }

  lemma StartedAt(rows: seq<RawRow>)
    ensures Started(|rows|) == TailAt(rows, 0, 0, [], 0)
  {
    assert SumTo(rows, 0) == 0;
  }

  // ----- a prefix of a tuple tells where its finished attributes end -----

  lemma {:induction false} PrefixOff(bs: seq<byte>, m: nat, i: nat)
    requires i <= ATTRS && FieldsOk(bs, i) && Off(bs, i) <= m <= |bs|
    ensures Off(bs[..m], i) == Off(bs, i)
  {
    if i > 0 {
      OffGrows(bs, i - 1, i);
      PrefixOff(bs, m, i - 1);
    }
  }

  /** Within attribute i: it is complete exactly when its last byte has arrived. */
  lemma PrefixHasField(bs: seq<byte>, m: nat, i: nat)
    requires i < ATTRS && FieldsOk(bs, i + 1) && Off(bs, i) < m <= Off(bs, i + 1) <= |bs|
    ensures HasField(bs[..m], i) <==> m == Off(bs, i + 1)
    ensures m == Off(bs, i + 1) ==> Payload(bs[..m], i) == Payload(bs, i)
  {
    PrefixOff(bs, m, i);
  }

  /** When attribute i - 1 is complete, attribute i is not. */
  lemma NextNotYet(bs: seq<byte>, i: nat)
    requires i <= ATTRS && FieldsOk(bs, i) && Off(bs, i) <= |bs|
    ensures !HasField(bs[..Off(bs, i)], i)
  {
    PrefixOff(bs, Off(bs, i), i);
  }

  lemma FieldNotEmpty(bs: seq<byte>, i: nat)
    requires i < ATTRS
    ensures Off(bs, i) < Off(bs, i + 1)
  {
  }

  lemma FieldsOkFits(bs: seq<byte>, n: nat, i: nat)
    requires i < n <= ATTRS && FieldsOk(bs, n)
    ensures FieldsOk(bs, i + 1) && Off(bs, i + 1) <= |bs|
  {
    if i + 1 < n {
      FieldsOkFits(bs, n - 1, i);
    }
  }

  // ----- one attribute -----

  lemma ByteInside(rows: seq<RawRow>, t: nat, i: nat, bs: seq<byte>, m: nat, pgOff: nat)
    requires t < |rows| && i < ATTRS && FieldsOk(bs, i + 1) && Off(bs, i) <= m && m + 1 < Off(bs, i + 1) <= |bs|
    ensures OneByte(TailAt(rows, t, i, bs[..m], pgOff), bs[m]) == TailAt(rows, t, i, bs[..m + 1], pgOff + 1)
  {
    hide DecoderAt, AdderAt, FieldsOk, Off, HasField;
    PrefixHasField(bs, m + 1, i);
    assert bs[..m] + [bs[m]] == bs[..m + 1];
  }

  /** Attribute i is complete: skipped, or decoded and added. */
  function AfterField(rows: seq<RawRow>, t: nat, i: nat, cur: seq<byte>, pgOff: nat): Tail {
    if i + 1 == ATTRS then TailAt(rows, t + 1, 0, [], pgOff) else TailAt(rows, t, i + 1, cur, pgOff)
  }

  /** Attributes without a column change nothing downstream, and the end of a tuple is the start of the next. */
  lemma OthersSkipped(rows: seq<RawRow>, t: nat, i: nat)
    requires i < ATTRS && !IsColumn(i)
    ensures DecodersAt(|rows|, t, i + 1) == DecodersAt(|rows|, t, i) && AdderAt(rows, t, i + 1) == AdderAt(rows, t, i)
    ensures DecodersAt(|rows|, t, ATTRS) == DecodersAt(|rows|, t + 1, 0)
        && AdderAt(rows, t, ATTRS) == AdderAt(rows, t + 1, 0)
  {
  }

  lemma ColumnPassed(n: nat, t: nat, i: nat)
    requires IsColumn(i)
    ensures var col := ColumnOf(i);
            && DecodersAt(n, t, i)[col] == Decoder(n, t)
            && DecodersAt(n, t, i + 1) == DecodersAt(n, t, i)[col := Decoder(n, t + 1)]
  {
  }

  lemma ByteSkipped(rows: seq<RawRow>, t: nat, i: nat, bs: seq<byte>, m: nat, pgOff: nat)
    requires t < |rows| && i < ATTRS && FieldsOk(bs, i + 1) && Off(bs, i) <= m && m + 1 == Off(bs, i + 1) <= |bs|
    requires !IsColumn(i)
    ensures OneByte(TailAt(rows, t, i, bs[..m], pgOff), bs[m]) == AfterField(rows, t, i, bs[..m + 1], pgOff + 1)
  {
    hide FieldsOk, Off, HasField, DecodersAt, AdderAt;
    OthersSkipped(rows, t, i);
    NextNotYet(bs, i + 1);
    PrefixHasField(bs, m + 1, i);
    assert bs[..m] + [bs[m]] == bs[..m + 1];
  }

  lemma DecodedValue(r: RawRow, i: nat)
    requires Readable(r) && IsColumn(i)
    ensures Decode(ColumnOf(i), r[i]) == K.Value(r, ColumnOf(i))
  {
    hide ReadLong, ReadDate;
  }

  lemma Added(rows: seq<RawRow>, t: nat, i: nat)
    requires t < |rows| && Readable(rows[t]) && IsColumn(i)
    ensures AdderGot(AdderAt(rows, t, i), K.Value(rows[t], ColumnOf(i))) == AdderAt(rows, t, i + 1)
  {
    hide K.Value, SumRows, Int64, K.Accumulate, Readable;
    if i == SHP {
      var r := rows[t];
      K.AggStep(rows, t, K.Value(r, 0), K.Value(r, 1), K.Value(r, 2), K.Value(r, 3));
    }
  }

  lemma ByteCompletes(rows: seq<RawRow>, t: nat, i: nat, bs: seq<byte>, m: nat, pgOff: nat)
    requires t < |rows| && i < ATTRS && FieldsOk(bs, i + 1) && Off(bs, i) <= m && m + 1 == Off(bs, i + 1) <= |bs|
    requires IsColumn(i) && Readable(rows[t]) && rows[t][i] == Payload(bs, i)
    ensures OneByte(TailAt(rows, t, i, bs[..m], pgOff), bs[m]) == AfterField(rows, t, i, bs[..m + 1], pgOff + 1)
  {
    hide FieldsOk, Off, HasField, AdderGot, ValuesUpTo, SumTo, DecodersAt, K.Value, Decode, Payload, Readable;
    ColumnPassed(|rows|, t, i);
    PrefixHasField(bs, m + 1, i);
    assert bs[..m] + [bs[m]] == bs[..m + 1];
    DecodedValue(rows[t], i);
    Added(rows, t, i);
  }

  lemma {:induction false} FeedInside(rows: seq<RawRow>, t: nat, i: nat, bs: seq<byte>, m: nat, pgOff: nat)
    requires t < |rows| && i < ATTRS && FieldsOk(bs, i + 1) && Off(bs, i) <= m < Off(bs, i + 1) <= |bs|
    ensures Feed(TailAt(rows, t, i, bs[..Off(bs, i)], pgOff), bs[Off(bs, i)..m])
        == TailAt(rows, t, i, bs[..m], pgOff + m - Off(bs, i))
  {
    hide TailAt, OneByte, FieldsOk, Off;
    var s := Off(bs, i);
    if m > s {
      FeedInside(rows, t, i, bs, m - 1, pgOff);
      ByteInside(rows, t, i, bs, m - 1, pgOff + m - 1 - s);
      assert bs[s..m][..m - 1 - s] == bs[s..m - 1];
    }
  }

  lemma FeedField(rows: seq<RawRow>, t: nat, i: nat, bs: seq<byte>, pgOff: nat)
    requires t < |rows| && i < ATTRS && FieldsOk(bs, i + 1) && Off(bs, i + 1) <= |bs|
    requires Readable(rows[t]) && rows[t][i] == Payload(bs, i)
    ensures Off(bs, i) <= Off(bs, i + 1)
    ensures Feed(TailAt(rows, t, i, bs[..Off(bs, i)], pgOff), bs[Off(bs, i)..Off(bs, i + 1)])
            == AfterField(rows, t, i, bs[..Off(bs, i + 1)], pgOff + Off(bs, i + 1) - Off(bs, i))
  {
    hide TailAt, AfterField, OneByte, FieldsOk, Off, Readable, Payload;
    var s, e := Off(bs, i), Off(bs, i + 1);
    FieldNotEmpty(bs, i);
    FeedInside(rows, t, i, bs, e - 1, pgOff);
    assert bs[s..e][..e - 1 - s] == bs[s..e - 1];
    if IsColumn(i) {
      ByteCompletes(rows, t, i, bs, e - 1, pgOff + e - 1 - s);
    } else {
      ByteSkipped(rows, t, i, bs, e - 1, pgOff + e - 1 - s);
    }
  }

  // ----- one tuple, all tuples, the rest of the page -----

  lemma {:induction false} FeedFields(rows: seq<RawRow>, t: nat, i: nat, bs: seq<byte>, pgOff: nat)
    requires t < |rows| && i < ATTRS && FieldsOk(bs, ATTRS) && Readable(rows[t]) && rows[t] == RowAt(bs)
    ensures Off(bs, i) <= |bs|
    ensures Feed(TailAt(rows, t, 0, [], pgOff), bs[..Off(bs, i)])
        == TailAt(rows, t, i, bs[..Off(bs, i)], pgOff + Off(bs, i))
  {
    hide TailAt, OneByte, FieldsOk, Off, Readable, Payload, RowAt;
    if i == 0 {
      assert Off(bs, 0) == 0 by {
        OffZero(bs);
      }
      assert bs[..0] == [];
    } else {
      FeedFields(rows, t, i - 1, bs, pgOff);
      FieldsOkFits(bs, ATTRS, i - 1);
      RowPayload(bs, i - 1);
      FeedField(rows, t, i - 1, bs, pgOff + Off(bs, i - 1));
      FeedAppend(TailAt(rows, t, 0, [], pgOff), bs[..Off(bs, i - 1)], bs[Off(bs, i - 1)..Off(bs, i)]);
      assert bs[..Off(bs, i - 1)] + bs[Off(bs, i - 1)..Off(bs, i)] == bs[..Off(bs, i)];
    }
  }

  lemma OffZero(bs: seq<byte>)
    ensures Off(bs, 0) == 0
  {
  }

  lemma RowPayload(bs: seq<byte>, i: nat)
    requires i < ATTRS
    ensures RowAt(bs)[i] == Payload(bs, i)
  {
    PayloadsAt(bs, ATTRS, i);
  }

  lemma FeedTuple(rows: seq<RawRow>, t: nat, bs: seq<byte>, pgOff: nat)
    requires t < |rows| && RowOk(bs) && rows[t] == RowAt(bs)
    ensures TupleLen(bs) <= |bs|
    ensures Feed(TailAt(rows, t, 0, [], pgOff), bs[..TupleLen(bs)]) == TailAt(rows, t + 1, 0, [], pgOff + TupleLen(bs))
  {
    hide TailAt, OneByte, FieldsOk, Off, Readable, Payload, RowAt, NumericsOk;
    RowReadable(bs);
    FieldsOkFits(bs, ATTRS, ATTRS - 1);
    var i := ATTRS - 1;
    RowPayload(bs, i);
    FeedFields(rows, t, i, bs, pgOff);
    FeedField(rows, t, i, bs, pgOff + Off(bs, i));
    FeedAppend(TailAt(rows, t, 0, [], pgOff), bs[..Off(bs, i)], bs[Off(bs, i)..Off(bs, ATTRS)]);
    assert bs[..Off(bs, i)] + bs[Off(bs, i)..Off(bs, ATTRS)] == bs[..Off(bs, ATTRS)];
  }

  /** Behind the last tuple bytes are only counted. */
  lemma {:induction false} FeedRest(rows: seq<RawRow>, bs: seq<byte>, pgOff: nat)
    ensures Feed(TailAt(rows, |rows|, 0, [], pgOff), bs) == TailAt(rows, |rows|, 0, [], pgOff + |bs|)
  {
    hide AdderAt, DecoderAt, HasField;
    if bs != [] {
      FeedRest(rows, bs[..|bs| - 1], pgOff);
    }
  }

  /** The first of the rows still to come is the tuple that starts here; the others follow it. */
  lemma FirstRow(rows: seq<RawRow>, t: nat, bs: seq<byte>)
    requires t < |rows| && RowsOk(bs, |rows| - t) && rows[t..] == Rows(bs, |rows| - t)
    ensures RowOk(bs) && rows[t] == RowAt(bs)
    ensures RowsOk(AfterTuple(bs), |rows| - (t + 1)) && rows[t + 1..] == Rows(AfterTuple(bs), |rows| - (t + 1))
  {
    hide RowOk, RowAt, TupleLen;
    assert rows[t] == rows[t..][0];
    assert rows[t + 1..] == rows[t..][1..];
  }

  /** Tuple after tuple, then the rest of the page. */
  lemma {:induction false} FeedRows(rows: seq<RawRow>, t: nat, bs: seq<byte>, pgOff: nat)
    requires t <= |rows| && RowsOk(bs, |rows| - t) && rows[t..] == Rows(bs, |rows| - t)
    ensures Feed(TailAt(rows, t, 0, [], pgOff), bs) == TailAt(rows, |rows|, 0, [], pgOff + |bs|)
    decreases |rows| - t
  {
    hide TailAt, Feed, RowOk, RowAt, TupleLen, Rows, RowsOk;
    if t == |rows| {
      FeedRest(rows, bs, pgOff);
    } else {
      FirstRow(rows, t, bs);
      FeedTuple(rows, t, bs, pgOff);
      var len := TupleLen(bs);
      FeedRows(rows, t + 1, AfterTuple(bs), pgOff + len);
      FeedAppend(TailAt(rows, t, 0, [], pgOff), bs[..len], bs[len..]);
      assert bs[..len] + bs[len..] == bs;
    }
  }

  /** Once a page's body has gone by, the aggregator holds the page's sum and waits for the end of the page. */
  lemma WholePage(native: bool, page: seq<byte>)
    requires K.PageOk(native, page)
    ensures var body, n := K.Body(native, page), K.Count(native, page);
            var d := Feed(Started(n), body);
            && d.parser == Parser(n, n, 0, [], |body|)
            && d.decoders == [Decoder(n, n), Decoder(n, n), Decoder(n, n), Decoder(n, n)]
            && d.adder == Adder(n, n, [], Int64(K.PageSum(native, page)))
  {
    hide Rows, RowsOk, SumRows, K.Body, K.Count, Feed, Int64;
    var body, n := K.Body(native, page), K.Count(native, page);
    var rows := Rows(body, n);
    StartedAt(rows);
    FeedRows(rows, 0, body, 0);
    assert rows[..n] == rows;
  }
}
