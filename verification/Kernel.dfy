/**
  The Query 6 kernel, stage by stage as sequential C simulation runs it: header, parser, decoders and
  aggregator of one processing unit, the round-robin page reader and the top level.
*/
module Kernel {
  import opened Machine
  import opened Streams
  import opened Lineitem
  import opened TupleParser
  import Numeric
  import H = HeapPage

  type Field = f: seq<byte> | |f| == 16 witness [0, 0, 0, 0, 0, 0, 0, 0, 0, 0, 0, 0, 0, 0, 0, 0]

  /** A 16-byte field transports payload p and, in its last byte, the length of p; the bytes between are arbitrary. */
  predicate Carries(f: Field, p: seq<byte>) {
    |p| <= 14 && f[..|p|] == p && f[15] as int == |p|
  }

  // The four column streams qtyFieldStrm, extFieldStrm, dscFieldStrm and shpFieldStrm are lanes 0 to 3 of
  // one stream array, the three decoded numeric streams lanes 0 to 2 of another.

  const COLUMNS: nat := 4

  /** The attribute that column `col` carries. */
  function AttrOf(col: nat): nat {
    if col == 0 then QTY else if col == 1 then EXT else if col == 2 then DSC else SHP
  }

  function Column(r: RawRow, col: nat): seq<byte> {
    if AttrOf(col) < |r| then r[AttrOf(col)] else []
  }

  ghost predicate CarriesAll(q: seq<Field>, rows: seq<RawRow>, col: nat, n: nat) {
    |q| == n <= |rows| && forall j :: 0 <= j < n ==> Carries(q[j], Column(rows[j], col))
  }

  ghost predicate AllReadable(rows: seq<RawRow>) {
    forall j :: 0 <= j < |rows| ==> Readable(rows[j])
  }

  /** The number that column `col` of a row decodes to. */
  function Value(r: RawRow, col: nat): int {
    if !Readable(r) then 0 else if col < 3 then ReadLong(Column(r, col)) else ReadDate(r[SHP])
  }

  ghost predicate Decoded(q: seq<int>, rows: seq<RawRow>, col: nat, n: nat) {
    |q| == n <= |rows| && forall j :: 0 <= j < n ==> q[j] == Value(rows[j], col)
  }

  lemma ContributionOfValues(r: RawRow)
    requires Readable(r)
    ensures Contribution(r) == if Selected(Value(r, 0), Value(r, 2), Value(r, 3)) then Value(r, 1) * Value(r, 2) else 0
  {
  }

  /** What one row does to the running 64-bit sum. */
  function Accumulate(sum: int, quantity: int, extPrice: int, discount: int, shipDate: int): int {
    if Selected(quantity, discount, shipDate) then Int64(sum + extPrice * discount) else sum
  }

  lemma AggStep(rows: seq<RawRow>, i: nat, quantity: int, extPrice: int, discount: int, shipDate: int)
    requires i < |rows| && Readable(rows[i])
    requires quantity == Value(rows[i], 0) && extPrice == Value(rows[i], 1)
    requires discount == Value(rows[i], 2) && shipDate == Value(rows[i], 3)
    ensures Accumulate(Int64(SumRows(rows[..i])), quantity, extPrice, discount, shipDate)
        == Int64(SumRows(rows[..i + 1]))
  {
    ContributionOfValues(rows[i]);
    SumPrefix(rows, i);
    Int64Add(SumRows(rows[..i]), Contribution(rows[i]));
  }

  lemma ZeroRows(rows: seq<RawRow>)
    ensures Int64(SumRows(rows[..0])) == 0
  {
  }

  // ----- one processing unit -----

  /** Decodes one numeric column to 64-bit integers. */
  method ToLong(nTupsStrm: StreamArray<int>, id: nat, fieldStrm: StreamArray<Field>, longStrm: StreamArray<int>,
                col: nat, ghost rows: seq<RawRow>)
    requires nTupsStrm != longStrm
    requires id < |nTupsStrm.q| && nTupsStrm.q[id] == [|rows|] && AllReadable(rows)
    requires col < 3 && |fieldStrm.q| == COLUMNS && |longStrm.q| == 3
    requires CarriesAll(fieldStrm.q[col], rows, col, |rows|) && longStrm.q[col] == []
    modifies nTupsStrm, fieldStrm, longStrm
    ensures nTupsStrm.q == old(nTupsStrm.q)[id := []] && fieldStrm.q == old(fieldStrm.q)[col := []]
    ensures |longStrm.q| == 3 && longStrm.q == old(longStrm.q)[col := longStrm.q[col]]
    ensures Decoded(longStrm.q[col], rows, col, |rows|)
  {
    ghost var fields := fieldStrm.q[col];
    var nTups := nTupsStrm.Read(id);
    assert nTupsStrm.q[id] == [];
    for i := 0 to nTups
      invariant nTupsStrm.q == old(nTupsStrm.q)[id := []]
      invariant fieldStrm.q == old(fieldStrm.q)[col := fields[i..]]
      invariant |longStrm.q| == 3 && longStrm.q == old(longStrm.q)[col := longStrm.q[col]]
      invariant Decoded(longStrm.q[col], rows, col, i)
    {
      var tmp := fieldStrm.Read(col);
      assert Carries(tmp, Column(rows[i], col)) && Readable(rows[i]);
      var l := Numeric.SnumToLong3(tmp, tmp[15] as int);
      longStrm.Write(col, l);
    }
  }

  /** Decodes the ship dates. */
  method ToDate(nTupsStrm: StreamArray<int>, id: nat, fieldStrm: StreamArray<Field>, dateStrm: Stream<int>,
                ghost rows: seq<RawRow>)
    requires id < |nTupsStrm.q| && nTupsStrm.q[id] == [|rows|] && AllReadable(rows)
    requires |fieldStrm.q| == COLUMNS && CarriesAll(fieldStrm.q[3], rows, 3, |rows|) && dateStrm.q == []
    modifies nTupsStrm, fieldStrm, dateStrm
    ensures nTupsStrm.q == old(nTupsStrm.q)[id := []] && fieldStrm.q == old(fieldStrm.q)[3 := []]
    ensures Decoded(dateStrm.q, rows, 3, |rows|)
  {
    ghost var fields := fieldStrm.q[3];
    var nTups := nTupsStrm.Read(id);
    assert nTupsStrm.q[id] == [];
    for i := 0 to nTups
      invariant nTupsStrm.q == old(nTupsStrm.q)[id := []]
      invariant fieldStrm.q == old(fieldStrm.q)[3 := fields[i..]]
      invariant Decoded(dateStrm.q, rows, 3, i)
    {
      var tmp := fieldStrm.Read(3);
      assert Carries(tmp, Column(rows[i], 3)) && Readable(rows[i]);
      var d := GetJdate(tmp);
      dateStrm.Write(d);
    }
  }

  /** The decoded columns still to be read once i rows have been joined. */
  ghost predicate Left(longs: seq<seq<int>>, dates: seq<int>, rows: seq<RawRow>, i: nat) {
    && i <= |rows| && |longs| == 3
    && (forall c :: 0 <= c < 3 ==> |longs[c]| == |rows| - i)
    && (forall c, j :: 0 <= c < 3 && 0 <= j < |rows| - i ==> longs[c][j] == Value(rows[i + j], c))
    && |dates| == |rows| - i && forall j :: 0 <= j < |rows| - i ==> dates[j] == Value(rows[i + j], 3)
  }

  /** The four values of the next row. */
  method ReadRow(longStrm: StreamArray<int>, shpStrm: Stream<int>, ghost rows: seq<RawRow>, ghost i: nat)
    returns (quantity: int, extPrice: int, discount: int, shipDate: int)
    requires i < |rows| && Left(longStrm.q, shpStrm.q, rows, i)
    modifies longStrm, shpStrm
    ensures Left(longStrm.q, shpStrm.q, rows, i + 1)
    ensures quantity == Value(rows[i], 0) && extPrice == Value(rows[i], 1)
    ensures discount == Value(rows[i], 2) && shipDate == Value(rows[i], 3)
  {
    ghost var longs := longStrm.q;
    assert forall c :: 0 <= c < 3 ==> longs[c][0] == Value(rows[i + 0], c);
    quantity := longStrm.Read(0);
    extPrice := longStrm.Read(1);
    discount := longStrm.Read(2);
    shipDate := shpStrm.Read();
    assert longStrm.q == [longs[0][1..], longs[1][1..], longs[2][1..]];
  }

  /** Joins the decoded columns and sums the selected rows, wrapping at 64 bits. */
  method Agg(nTupsStrm: StreamArray<int>, id: nat, longStrm: StreamArray<int>, shpStrm: Stream<int>,
             filterDone: Stream<bool>, ghost rows: seq<RawRow>)
    returns (sum: int)
    requires nTupsStrm != longStrm
    requires id < |nTupsStrm.q| && nTupsStrm.q[id] == [|rows|] && AllReadable(rows)
    requires |longStrm.q| == 3 && forall c :: 0 <= c < 3 ==> Decoded(longStrm.q[c], rows, c, |rows|)
    requires Decoded(shpStrm.q, rows, 3, |rows|) && filterDone.q == [true]
    modifies nTupsStrm, longStrm, shpStrm, filterDone
    ensures sum == Int64(SumRows(rows))
  {
    hide Int64, Value, SumRows, Contribution;
    var nTups := nTupsStrm.Read(id);
    sum := 0;
    ZeroRows(rows);
    for i := 0 to nTups
      invariant Left(longStrm.q, shpStrm.q, rows, i) && filterDone.q == [true]
      invariant sum == Int64(SumRows(rows[..i]))
    {
      var quantity, extPrice, discount, shipDate := ReadRow(longStrm, shpStrm, rows, i);
      AggStep(rows, i, quantity, extPrice, discount, shipDate);
      if shipDate >= JD19940101 && shipDate < JD19950101 && discount >= 5 && discount <= 7 && quantity < 2400 {
        sum := Int64(sum + extPrice * discount);
      }
    }
    assert rows[..|rows|] == rows;
    var eop := filterDone.Read();
  }

  /** Writes the field of attribute fPtr to the stream of its column, and moves past every other attribute. */
  method FilterField(prsr: TupParser, fPtr: nat, byteStream: Stream<byte>, fieldStrm: StreamArray<Field>,
                     ghost bs: seq<byte>)
    requires |fieldStrm.q| == COLUMNS
    requires fPtr < ATTRS && prsr.off == Off(bs, fPtr) <= |bs| && byteStream.q == bs[prsr.off..]
    requires FieldOk(bs, fPtr, prsr.off)
    requires fPtr in {QTY, EXT, DSC, SHP} ==> |Payload(bs, fPtr)| <= 14
    modifies prsr, byteStream, fieldStrm
    ensures prsr.off == Off(bs, fPtr + 1) <= |bs| && byteStream.q == bs[prsr.off..]
    ensures prsr.pgOff - prsr.off == old(prsr.pgOff - prsr.off)
    ensures |fieldStrm.q| == COLUMNS
    ensures forall c: nat :: c < COLUMNS ==>
        Appended(old(fieldStrm.q[c]), fieldStrm.q[c], fPtr == AttrOf(c), Payload(bs, fPtr))
  {
    var fLen := prsr.GetFieldLen(fPtr, byteStream, bs);
    if fPtr == 4 || fPtr == 5 || fPtr == 6 || fPtr == 10 {
      var tmp := new byte[NMRC_FIELD_SZ];
      prsr.GetField(tmp, fLen, byteStream, bs);
      tmp[NMRC_FIELD_SZ - 1] := fLen;
      var field: Field := tmp[..];
      assert Carries(field, Payload(bs, fPtr));
      if fPtr == 4 {
        fieldStrm.Write(0, field);
      } else if fPtr == 5 {
        fieldStrm.Write(1, field);
      } else if fPtr == 6 {
        fieldStrm.Write(2, field);
      } else {
        fieldStrm.Write(3, field);
      }
    } else {
      prsr.SkipBytes(fLen, byteStream, bs);
    }
  }

  /** A column stream gained one field carrying p, or nothing. */
  ghost predicate Appended(before: seq<Field>, after: seq<Field>, grows: bool, p: seq<byte>) {
    if grows then |after| == |before| + 1 && after[..|before|] == before && Carries(after[|before|], p)
    else after == before
  }

  /** Fields of n whole rows, and those of row n that come before attribute fPtr. */
  ghost predicate ColumnsUpTo(q: seq<seq<Field>>, rows: seq<RawRow>, n: nat, fPtr: nat) {
    |q| == COLUMNS && forall c: nat :: c < COLUMNS ==>
      CarriesAll(q[c], rows, c, n + (if fPtr > AttrOf(c) then 1 else 0))
  }

  lemma ColumnStep(before: seq<Field>, after: seq<Field>, rows: seq<RawRow>, col: nat, n: nat, grows: bool,
                   p: seq<byte>)
    requires n < |rows| && CarriesAll(before, rows, col, n) && Appended(before, after, grows, p)
    requires grows ==> p == Column(rows[n], col)
    ensures CarriesAll(after, rows, col, if grows then n + 1 else n)
  {
    forall j | 0 <= j < |before|
      ensures Carries(after[j], Column(rows[j], col))
    {
      assert after[j] == before[j];
    }
  }

  lemma ColumnsStep(before: seq<seq<Field>>, after: seq<seq<Field>>, rows: seq<RawRow>, n: nat, fPtr: nat,
                    bs: seq<byte>)
    requires |after| == COLUMNS && fPtr < ATTRS && ColumnsUpTo(before, rows, n, fPtr)
    requires n < |rows| && rows[n] == RowAt(bs)
    requires forall c: nat :: c < COLUMNS ==> Appended(before[c], after[c], fPtr == AttrOf(c), Payload(bs, fPtr))
    ensures ColumnsUpTo(after, rows, n, fPtr + 1)
  {
    forall c: nat | c < COLUMNS
      ensures CarriesAll(after[c], rows, c, n + (if fPtr + 1 > AttrOf(c) then 1 else 0))
    {
      PayloadsAt(bs, ATTRS, AttrOf(c));
      if fPtr <= AttrOf(c) {
        ColumnStep(before[c], after[c], rows, c, n, fPtr == AttrOf(c), Payload(bs, fPtr));
      }
    }
  }

  lemma RowFields(bs: seq<byte>)
    requires RowOk(bs)
    ensures forall c: nat :: c < COLUMNS ==> |Payload(bs, AttrOf(c))| <= 14
  {
    RowReadable(bs);
    forall c: nat | c < COLUMNS
      ensures |Payload(bs, AttrOf(c))| <= 14
    {
      PayloadsAt(bs, ATTRS, AttrOf(c));
    }
  }

  /** One tuple: its four fields join the columns. */
  method FilterTuple(prsr: TupParser, byteStream: Stream<byte>, fieldStrm: StreamArray<Field>, ghost rows: seq<RawRow>,
                     ghost n: nat)
    requires RowOk(byteStream.q) && n < |rows| && rows[n] == RowAt(byteStream.q)
    requires ColumnsUpTo(fieldStrm.q, rows, n, 0)
    modifies prsr, byteStream, fieldStrm
    ensures byteStream.q == AfterTuple(old(byteStream.q))
    ensures prsr.pgOff + |byteStream.q| == old(prsr.pgOff + |byteStream.q|)
    ensures ColumnsUpTo(fieldStrm.q, rows, n + 1, 0)
  {
    ghost var bs := byteStream.q;
    RowFields(bs);
    TupleFits(bs);
    prsr.StartTup();
    for fPtr := 0 to ATTRS
      invariant prsr.off == Off(bs, fPtr) <= |bs| && byteStream.q == bs[prsr.off..]
      invariant prsr.pgOff - prsr.off == old(prsr.pgOff)
      invariant ColumnsUpTo(fieldStrm.q, rows, n, fPtr)
    {
      ghost var before := fieldStrm.q;
      FieldsOkAt(bs, ATTRS, fPtr);
      assert fPtr in {QTY, EXT, DSC, SHP} ==> AttrOf(if fPtr == SHP then 3 else fPtr - 4) == fPtr;
      FilterField(prsr, fPtr, byteStream, fieldStrm, bs);
      ColumnsStep(before, fieldStrm.q, rows, n, fPtr, bs);
    }
    forall c: nat | c < COLUMNS
      ensures CarriesAll(fieldStrm.q[c], rows, c, n + 1)
    {
      assert ATTRS > AttrOf(c);
    }
  }

  /** All tuples of a page, one after the other. */
  method FilterTuples(prsr: TupParser, nTups: nat, byteStream: Stream<byte>, fieldStrm: StreamArray<Field>)
    requires RowsOk(byteStream.q, nTups)
    requires ColumnsUpTo(fieldStrm.q, [], 0, 0)
    modifies prsr, byteStream, fieldStrm
    ensures prsr.pgOff + |byteStream.q| == old(prsr.pgOff + |byteStream.q|)
    ensures ColumnsUpTo(fieldStrm.q, Rows(old(byteStream.q), nTups), nTups, 0)
  {
    ghost var bs, rows := byteStream.q, Rows(byteStream.q, nTups);
    for tcnt := 0 to nTups
      invariant prsr.pgOff + |byteStream.q| == old(prsr.pgOff + |byteStream.q|)
      invariant byteStream.q == AfterRows(bs, tcnt)
      invariant ColumnsUpTo(fieldStrm.q, rows, tcnt, 0)
    {
      RowsFrom(bs, nTups, tcnt);
      FilterTuple(prsr, byteStream, fieldStrm, rows, tcnt);
    }
  }

  /** Parses the page's tuples and streams the four used fields of each. */
  method Q6Filter(native: bool, nTupsStrm: StreamArray<int>, byteStream: Stream<byte>, fieldStrm: StreamArray<Field>,
                  filterDone: Stream<bool>, ghost n: nat)
    requires |nTupsStrm.q| > 0 && nTupsStrm.q[0] == [n]
    requires |byteStream.q| == (if native then PAGE_SZ else PAGE_SZ - 2) && RowsOk(byteStream.q, n)
    requires ColumnsUpTo(fieldStrm.q, [], 0, 0) && filterDone.q == []
    modifies nTupsStrm, byteStream, fieldStrm, filterDone
    ensures nTupsStrm.q == old(nTupsStrm.q)[0 := []] && byteStream.q == [] && filterDone.q == [true]
    ensures ColumnsUpTo(fieldStrm.q, Rows(old(byteStream.q), n), n, 0)
  {
    var prsr := new TupParser(native);
    var nTups := nTupsStrm.Read(0);
    assert nTupsStrm.q[0] == [];
    FilterTuples(prsr, nTups, byteStream, fieldStrm);
    prsr.SkipToPageEnd(byteStream);
    filterDone.Write(true);
  }

  // ----- the two header stages -----

  /** The number of tuples that the header of a repacked page announces. */
  function HeaderCount(page: seq<byte>): int
    requires |page| >= 2
  {
    Short(page[0], page[1])
  }

  /** The items of a native page that the peer-to-peer kernel extracts. */
  function Extracted(page: seq<byte>): seq<seq<byte>> {
    H.Items(page, 0)[..H.Fit(H.Items(page, 0), 0)]
  }

  /** How many tuples a page holds for the kernel. */
  function Count(native: bool, page: seq<byte>): nat {
    if native then |Extracted(page)|
    else if |page| >= 2 && HeaderCount(page) >= 0 then HeaderCount(page) else 0
  }

  /** The byte stream that the parser sees of a page. */
  function Body(native: bool, page: seq<byte>): seq<byte> {
    if native then
      var data := H.Concat(Extracted(page));
      if |data| <= |page| then data + page[|data|..] else data
    else if |page| >= 2 then page[2..] else []
  }

  /** A page that the kernel can process: its announced tuples parse. */
  predicate PageOk(native: bool, page: seq<byte>) {
    && |page| == PAGE_SZ
    && (if native then H.PageReadable(page) else HeaderCount(page) >= 0)
    && RowsOk(Body(native, page), Count(native, page))
  }

  /** What a page adds to the query result. */
  function PageSum(native: bool, page: seq<byte>): int {
    SumRows(Rows(Body(native, page), Count(native, page)))
  }

  /** Publishes the count on all six streams, then passes on the rest of the page. */
  method GetHeaderInt2(stream: Stream<byte>, nTupsStrm: StreamArray<int>, outStream: Stream<byte>)
    requires stream != outStream && |stream.q| >= PAGE_SZ && nTupsStrm.q == [[], [], [], [], [], []]
        && outStream.q == []
    modifies stream, nTupsStrm, outStream
    ensures stream.q == old(stream.q)[PAGE_SZ..]
    ensures outStream.q == old(stream.q)[2..PAGE_SZ]
    ensures var n := HeaderCount(old(stream.q)[..PAGE_SZ]); nTupsStrm.q == [[n], [n], [n], [n], [n], [n]]
  {
    ghost var all := stream.q;
    var ch1 := stream.Read();
    var ch2 := stream.Read();
    var nTups := Int16(Word16(ch1, ch2));
    ShortIsWrapped(ch1, ch2);
    PublishCount(nTups, nTupsStrm);
    for bcnt := 2 to PAGE_SZ
      invariant stream.q == all[bcnt..] && outStream.q == all[2..bcnt]
      invariant nTupsStrm.q == [[nTups], [nTups], [nTups], [nTups], [nTups], [nTups]]
    {
      var ch := stream.Read();
      outStream.Write(ch);
    }
  }

  method PublishCount(nTups: int, nTupsStrm: StreamArray<int>)
    requires nTupsStrm.q == [[], [], [], [], [], []]
    modifies nTupsStrm
    ensures nTupsStrm.q == [[nTups], [nTups], [nTups], [nTups], [nTups], [nTups]]
  {
    for scnt := 0 to 6
      invariant |nTupsStrm.q| == 6
      invariant forall i :: 0 <= i < 6 ==> nTupsStrm.q[i] == if i < scnt then [nTups] else []
    {
      nTupsStrm.Write(scnt, nTups);
    }
  }

  /** Peer-to-peer: stores the page, streams out the data of its items, and only then publishes their count. */
  method GetHeaderInt2Native(stream: Stream<byte>, nTupsStrm: StreamArray<int>, outStream: Stream<byte>)
    requires stream != outStream && |stream.q| >= PAGE_SZ && H.PageReadable(stream.q[..PAGE_SZ])
    requires nTupsStrm.q == [[], [], [], [], [], []] && outStream.q == []
    modifies stream, nTupsStrm, outStream
    ensures stream.q == old(stream.q)[PAGE_SZ..]
    ensures outStream.q == Body(true, old(stream.q)[..PAGE_SZ]) && |outStream.q| == PAGE_SZ
    ensures var n := Count(true, old(stream.q)[..PAGE_SZ]); nTupsStrm.q == [[n], [n], [n], [n], [n], [n]]
  {
    var page := ReadPage(stream);
    ghost var p := page[..];
    var nTups, outcnt := ExtractItems(page, outStream);
    PublishCount(nTups, nTupsStrm);
    for bcnt := outcnt to PAGE_SZ
      invariant outStream.q == H.Concat(Extracted(p)) + p[outcnt..bcnt] && page[..] == p
      invariant stream.q == old(stream.q)[PAGE_SZ..]
      invariant nTupsStrm.q == [[nTups], [nTups], [nTups], [nTups], [nTups], [nTups]]
    {
      outStream.Write(page[bcnt]);
    }
  }

  method ReadPage(stream: Stream<byte>) returns (page: array<byte>)
    requires |stream.q| >= PAGE_SZ
    modifies stream
    ensures fresh(page) && page.Length == PAGE_SZ && page[..] == old(stream.q)[..PAGE_SZ]
    ensures stream.q == old(stream.q)[PAGE_SZ..]
  {
    ghost var all := stream.q;
    page := new byte[PAGE_SZ];
    for bcnt := 0 to PAGE_SZ
      invariant stream.q == all[bcnt..] && page[..bcnt] == all[..bcnt]
    {
      var ch := stream.Read();
      page[bcnt] := ch;
    }
  }

  /** Follows line pointer linNum past the tuple header: where the tuple's data starts and how long it is. */
  method TupleData(page: array<byte>, linNum: nat) returns (start: nat, tupleDataLen: nat)
    requires page.Length == PAGE_SZ && H.ItemReadable(page[..], linNum)
    ensures start + tupleDataLen <= PAGE_SZ && H.Data(page[..], linNum) == page[start..start + tupleDataLen]
  {
    var lpOffset := H.LpOff(page[..], linNum);
    var lpLen := H.LpLen(page[..], linNum);
    var tHoff := page[lpOffset + H.T_HOFF] as int;
    tupleDataLen := lpLen - tHoff;
    start := lpOffset + tHoff;
  }

  /** The line-pointer loop: items stream out in line order until one does not fit. */
  method ExtractItems(page: array<byte>, outStream: Stream<byte>) returns (nTups: nat, outcnt: nat)
    requires page.Length == PAGE_SZ && H.PageReadable(page[..]) && outStream.q == []
    modifies outStream
    ensures nTups == |Extracted(page[..])| && outcnt < PAGE_SZ
    ensures outStream.q == H.Concat(Extracted(page[..])) && outcnt == |outStream.q|
  {
    hide H.Items, H.Data, H.Taking, H.ItemReadable;
    ghost var p, items, done := page[..], H.Items(page[..], 0), [];
    H.TakingStart(items, 0);
    assert items + [] == items;
    var nLines := H.NLines(page[..]);
    nTups, outcnt := 0, 0;
    var linNum := 0;
    while linNum <= nLines
      invariant linNum <= nLines + 1 && page[..] == p
      invariant H.Taking(items, done, H.Items(p, linNum) + [], outcnt, 0)
      invariant nTups == |done| && outcnt == |outStream.q| < PAGE_SZ && outStream.q == H.Concat(done)
    {
      assert H.ItemReadable(p, linNum);
      var start, tupleDataLen := TupleData(page, linNum);
      H.VisitLine(p, items, done, linNum, [], outcnt, 0);
      if tupleDataLen == 0 {
        linNum := linNum + 1;
        continue;
      }
      if outcnt + tupleDataLen < PAGE_SZ {
        StreamBytes(page, start, tupleDataLen, outStream);
        done := done + [H.Data(p, linNum)];
        outcnt := outcnt + tupleDataLen;
        nTups := nTups + 1;
      } else {
        break;
      }
      linNum := linNum + 1;
    }
    H.ItemsStep(p, linNum);
    H.TakingStop(items, done, H.Items(p, linNum) + [], outcnt, 0);
  }

  method StreamBytes(page: array<byte>, from: nat, len: nat, outStream: Stream<byte>)
    requires from + len <= page.Length
    modifies outStream
    ensures outStream.q == old(outStream.q) + page[from..from + len]
  {
    for bcnt := 0 to len
      invariant outStream.q == old(outStream.q) + page[from..from + bcnt]
    {
      outStream.Write(page[from + bcnt]);
    }
  }
}
