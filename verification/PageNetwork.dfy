/**
  One processing unit on one page as a network of concurrent processes joined by bounded FIFOs: byte
  source, header, parser, four decoders, aggregator. The peer-to-peer header publishes the tuple count,
  for which everyone else waits, only behind the tuples; shown for every schedule: it finishes exactly
  when the FIFO to the parser holds all tuple bytes. The header that publishes first always finishes.
*/
module PageNetwork {
  import opened Machine
  import opened Kahn
  import opened PageParse
  import H = HeapPage
  import K = Kernel
  import Lineitem


  /** Which header stage, on which page; the depth of dataStream, and of every other FIFO. */
  datatype Config = Config(native: bool, page: seq<byte>, dataDepth: nat, depth: nat)

  datatype Datum = Byte(b: byte) | Count(n: nat) | Field(p: seq<byte>) | Value(x: int) | EndOfPage

  const FEEDER: nat := 0
  const HEADER: nat := 1
  const PARSER: nat := 2
  const ADDER: nat := 3
  const DECODERS: nat := 4

  const IN: nat := 0
  const DATA: nat := 1
  const EOP: nat := 2
  const CHANNELS: nat := 17

  /** nTupsStrm[i], the field stream and the value stream of a column. */
  function CountTo(i: nat): nat { 3 + i }
  function FieldTo(col: nat): nat { 9 + col }
  function ValueFrom(col: nat): nat { 13 + col }

  /** Who reads count i: the parser, the decoders, the aggregator. */
  function CountReader(i: nat): nat {
    if i == 0 then PARSER else if i == 5 then ADDER else DECODERS + (i - 1)
  }

  function ReaderOf(ch: nat): nat {
    if ch == IN then HEADER else if ch == DATA then PARSER else if ch == EOP then ADDER
    else if ch < 9 then CountReader(ch - 3) else if ch < 13 then DECODERS + (ch - 9) else ADDER
  }

  function WriterOf(ch: nat): nat {
    if ch == IN then FEEDER else if ch == DATA then HEADER else if ch == EOP then PARSER
    else if ch < 9 then HEADER else if ch < 13 then PARSER else DECODERS + (ch - 13)
  }

  // ----- the header stages -----

  /** Both send the page's body and, after its first `early` bytes, the six counts. */
  function Early(native: bool, page: seq<byte>): nat {
    if native then |H.Concat(K.Extracted(page))| else 0
  }

  function Send(native: bool, page: seq<byte>, pc: nat): Act<Datum> {
    var early, body := Early(native, page), K.Body(native, page);
    if pc < early && pc < |body| then Put(DATA, Byte(body[pc]))
    else if early <= pc < early + 6 then Put(CountTo(pc - early), Count(K.Count(native, page)))
    else if pc >= early + 6 && pc - 6 < |body| then Put(DATA, Byte(body[pc - 6]))
    else Stop
  }

  /** Native: the whole page is stored first. Repacked: two bytes, the counts, then byte for byte. */
  function HeaderNext(native: bool, page: seq<byte>, pc: nat): Act<Datum> {
    if |page| < PAGE_SZ && (native || |page| < 2 || |page| == pc - 4) then Get(IN)
    else Send(native, page, pc)
  }

  // ----- all processes -----

  function ParserNext(c: Config, l: Local): Act<Datum>
    requires l.Parser?
  {
    if HasToSend(l) then Put(FieldTo(ColumnOf(l.fPtr)), Field(FieldSent(l)))
    else if l.t < l.n || l.pgOff < |K.Body(c.native, c.page)| then Get(DATA)
    else Put(EOP, EndOfPage)
  }

  function Next(c: Config, p: nat, l: Local): Act<Datum> {
    match l
    case Feeder(k) => if p == FEEDER && k < |c.page| then Put(IN, Byte(c.page[k])) else Stop
    case Header(page, pc) => if p == HEADER then HeaderNext(c.native, page, pc) else Stop
    case AwaitCount =>
      if p == PARSER then Get(CountTo(0))
      else if p == ADDER then Get(CountTo(5))
      else if DECODERS <= p < DECODERS + 4 then Get(CountTo(p - DECODERS + 1))
      else Stop
    case Parser(_, _, _, _, _) => if p == PARSER then ParserNext(c, l) else Stop
    case Decoder(n, i) => if DECODERS <= p < DECODERS + 4 && i < n then Get(FieldTo(p - DECODERS)) else Stop
    case Sending(n, i, x) => if DECODERS <= p < DECODERS + 4 then Put(ValueFrom(p - DECODERS), Value(x)) else Stop
    case Adder(n, i, vals, _) =>
      if p == ADDER && i < n && |vals| <= 3 then Get(ValueFrom(|vals|))
      else if p == ADDER && i >= n then Get(EOP)
      else Stop
    case Done(_) => Stop
  }

  function Got(p: nat, l: Local, v: Datum): Local {
    match (l, v)
    case (Header(page, pc), Byte(b)) => Header(page + [b], pc)
    case (AwaitCount, Count(n)) =>
      if p == PARSER then Parser(n, 0, 0, [], 0) else if p == ADDER then Adder(n, 0, [], 0) else Decoder(n, 0)
    case (Parser(_, _, _, _, _), Byte(b)) => ParserGot(l, b)
    case (Decoder(n, i), Field(f)) => Sending(n, i, Decode(if p >= DECODERS then p - DECODERS else 0, f))
    case (Adder(_, _, _, _), Value(x)) => AdderGot(l, x)
    case (Adder(_, _, _, sum), EndOfPage) => Done(sum)
    case _ => l
  }

  function Sent(l: Local): Local {
    match l
    case Feeder(k) => Feeder(k + 1)
    case Header(page, pc) => Header(page, pc + 1)
    case Parser(_, _, _, _, _) => if HasToSend(l) then NextField(l) else Done(0)
    case Sending(n, i, _) => Decoder(n, i + 1)
    case _ => l
  }

  function Capacity(c: Config, ch: nat): nat {
    if ch == DATA then c.dataDepth else c.depth
  }

  function Network(c: Config): Net<Local, Datum> {
    Net((p, l) => Next(c, p, l), (p, l, v) => Got(p, l, v), (p, l) => Sent(l),
        ch => Capacity(c, ch), ReaderOf, WriterOf)
  }

  lemma NetworkDisciplined(c: Config)
    ensures Disciplined(Network(c))
  {
    hide K.Body, K.Count, H.Concat, K.Extracted;
    forall p: nat, l: Local
      ensures Next(c, p, l).Get? ==> ReaderOf(Next(c, p, l).ch) == p
      ensures Next(c, p, l).Put? ==> WriterOf(Next(c, p, l).ch) == p
    {
    }
  }

  // ----- states with every FIFO empty but dataStream -----

  function Bytes(bs: seq<byte>): (q: seq<Datum>)
    ensures |q| == |bs|
  {
    seq(|bs|, i requires 0 <= i < |bs| => Byte(bs[i]))
  }

  function Fifos(data: seq<Datum>): (q: seq<seq<Datum>>)
    ensures |q| == CHANNELS && forall i :: 0 <= i < CHANNELS ==> q[i] == if i == DATA then data else []
  {
    seq(CHANNELS, i => if i == DATA then data else [])
  }

  function At(fd: Local, hd: Local, data: seq<byte>, d: Tail): State<Local, Datum> {
    State([fd, hd, d.parser, d.adder] + d.decoders, Fifos(Bytes(data)))
  }

  const WAITING := Tail(AwaitCount, [AwaitCount, AwaitCount, AwaitCount, AwaitCount], AwaitCount)

  function Initial(c: Config): State<Local, Datum> {
    At(Feeder(0), Header([], 0), [], WAITING)
  }

  /** The end: the aggregator has the page's sum, and nothing is left anywhere. */
  function Final(c: Config): State<Local, Datum> {
    var n := K.Count(c.native, c.page);
    At(Feeder(|c.page|), Header(c.page, |K.Body(c.native, c.page)| + 6), [],
       Tail(Done(0), [Decoder(n, n), Decoder(n, n), Decoder(n, n), Decoder(n, n)],
         Done(Int64(K.PageSum(c.native, c.page)))))
  }

  // ----- one byte reaches the parser, and what it completes goes all the way -----

  /** Enough about the processes behind the header to see that none of them is blocked. */
  ghost predicate Coherent(d: Tail) {
    && d.parser.Parser? && |d.decoders| == 4 && d.adder.Adder?
    && d.parser.t <= d.parser.n == d.adder.n && d.parser.fPtr < Lineitem.ATTRS
    && (d.parser.t == d.parser.n ==> d.parser.fPtr == 0)
    && (forall col :: 0 <= col < 4 ==> d.decoders[col] == DecoderAt(d.parser.n, d.parser.t, d.parser.fPtr, col))
    && d.adder.i == (if d.parser.fPtr > Lineitem.SHP then d.parser.t + 1 else d.parser.t)
    && |d.adder.vals| == |ValuesUpTo([], d.parser.fPtr)|
  }

  lemma PassOnCoherent(d: Tail)
    requires Coherent(d) && HasToSend(d.parser)
    ensures Coherent(PassOn(d, ColumnOf(d.parser.fPtr), FieldSent(d.parser)))
  {
    hide Decode, K.Accumulate, HasField, Lineitem.Payload, K.Value;
  }

  lemma GotCoherent(d: Tail, b: byte)
    requires Coherent(d) && !HasToSend(d.parser)
    ensures Coherent(d.(parser := ParserGot(d.parser, b)))
  {
    hide HasField, K.Value;
  }

  /** A field that the parser has completed passes on through decoder and aggregator. */
  lemma FieldPasses(c: Config, s: State<Local, Datum>, fd: Local, hd: Local, data: seq<byte>, d: Tail)
    requires Coherent(d) && HasToSend(d.parser) && c.depth > 0
    requires Reach(Network(c), s, At(fd, hd, data, d))
    ensures Reach(Network(c), s, At(fd, hd, data, PassOn(d, ColumnOf(d.parser.fPtr), FieldSent(d.parser))))
  {
    hide Decode, AdderGot, HasField, Lineitem.Payload, K.Value, K.Body, HasToSend;
    var col, f := ColumnOf(d.parser.fPtr), FieldSent(d.parser);
    ColumnReady(d);
    var n, i := d.parser.n, d.parser.t;
    FieldHanded(c, s, fd, hd, data, d, col, f, n, i);
    ValueHanded(c, s, fd, hd, data,
      Tail(NextField(d.parser), d.decoders[col := Sending(n, i, Decode(col, f))], d.adder), col, n, i, Decode(col, f));
    assert d.decoders[col := Sending(n, i, Decode(col, f))][col := Decoder(n, i + 1)]
      == d.decoders[col := Decoder(n, i + 1)];
  }

  /** When the parser has a field for a column, its decoder waits for one and the aggregator for that column. */
  lemma ColumnReady(d: Tail)
    requires Coherent(d) && HasToSend(d.parser)
    ensures var col := ColumnOf(d.parser.fPtr);
            && |d.decoders| == 4 && d.decoders[col] == Decoder(d.parser.n, d.parser.t) && d.parser.t < d.parser.n
            && d.adder.Adder? && d.adder.i == d.parser.t && d.adder.n == d.parser.n && |d.adder.vals| == col
  {
    hide HasField;
  }

  /** Parser to decoder. */
  lemma FieldHanded(c: Config, s: State<Local, Datum>, fd: Local, hd: Local, data: seq<byte>, d: Tail, col: nat,
                    f: seq<byte>, n: nat, i: nat)
    requires HasToSend(d.parser) && col == ColumnOf(d.parser.fPtr) && f == FieldSent(d.parser) && c.depth > 0
    requires |d.decoders| == 4 && d.decoders[col] == Decoder(n, i) && i < n
    requires Reach(Network(c), s, At(fd, hd, data, d))
    ensures Reach(Network(c), s,
        At(fd, hd, data, Tail(NextField(d.parser), d.decoders[col := Sending(n, i, Decode(col, f))], d.adder)))
  {
    hide Decode, HasField, FieldSent, K.Body, ColumnOf;
    var t := At(fd, hd, data, d);
    assert t.local[DECODERS + col] == d.decoders[col];
    var u := Hands(Network(c), s, t, PARSER, DECODERS + col, FieldTo(col), Field(f));
    assert u.local == At(fd, hd, data,
      Tail(NextField(d.parser), d.decoders[col := Sending(n, i, Decode(col, f))], d.adder)).local;
  }

  /** Decoder to aggregator. */
  lemma ValueHanded(c: Config, s: State<Local, Datum>, fd: Local, hd: Local, data: seq<byte>, d: Tail, col: nat,
                    n: nat, i: nat, x: int)
    requires |d.decoders| == 4 && col < 4 && d.decoders[col] == Sending(n, i, x) && c.depth > 0
    requires d.adder.Adder? && d.adder.i < d.adder.n && |d.adder.vals| == col
    requires Reach(Network(c), s, At(fd, hd, data, d))
    ensures Reach(Network(c), s,
        At(fd, hd, data, Tail(d.parser, d.decoders[col := Decoder(n, i + 1)], AdderGot(d.adder, x))))
  {
    hide AdderGot, K.Body;
    var t := At(fd, hd, data, d);
    assert t.local[DECODERS + col] == d.decoders[col];
    var u := Hands(Network(c), s, t, DECODERS + col, ADDER, ValueFrom(col), Value(x));
    assert u.local == At(fd, hd, data,
      Tail(d.parser, d.decoders[col := Decoder(n, i + 1)], AdderGot(d.adder, x))).local;
  }

  lemma ParserTakes(c: Config, s: State<Local, Datum>, fd: Local, hd: Local, data: seq<byte>, d: Tail, b: byte)
    requires Coherent(d) && !HasToSend(d.parser)
    requires d.parser.t < d.parser.n || d.parser.pgOff < |K.Body(c.native, c.page)|
    requires Reach(Network(c), s, At(fd, hd, [b] + data, d))
    ensures Reach(Network(c), s, At(fd, hd, data, d.(parser := ParserGot(d.parser, b))))
  {
    hide HasToSend, ParserGot, K.Body;
    var t := At(fd, hd, [b] + data, d);
    assert Bytes([b] + data) == [Byte(b)] + Bytes(data);
    var u := Takes(Network(c), s, t, PARSER, DATA, Byte(b), Bytes(data));
    assert u.fifo == Fifos(Bytes(data));
    assert u.local == At(fd, hd, data, d.(parser := ParserGot(d.parser, b))).local;
  }

  lemma OneByteCoherent(d: Tail, b: byte)
    requires Coherent(d) && !HasToSend(d.parser)
    ensures Coherent(OneByte(d, b))
  {
    hide Coherent, HasField, PassOn;
    GotCoherent(d, b);
    CoherentParser(d);
    var e := d.(parser := ParserGot(d.parser, b));
    if HasToSend(e.parser) {
      PassOnCoherent(e);
    }
  }

  /** The parser takes a byte, and what it completes passes on. */
  lemma ByteArrives(c: Config, s: State<Local, Datum>, fd: Local, hd: Local, data: seq<byte>, d: Tail, b: byte)
    requires Coherent(d) && !HasToSend(d.parser) && c.depth > 0
    requires d.parser.t < d.parser.n || d.parser.pgOff < |K.Body(c.native, c.page)|
    requires Reach(Network(c), s, At(fd, hd, [b] + data, d))
    ensures Reach(Network(c), s, At(fd, hd, data, OneByte(d, b)))
  {
    hide Coherent, HasField, PassOn, K.Body;
    CoherentParser(d);
    ParserTakes(c, s, fd, hd, data, d, b);
    GotCoherent(d, b);
    var e := d.(parser := ParserGot(d.parser, b));
    if HasToSend(e.parser) {
      FieldPasses(c, s, fd, hd, data, e);
    }
  }

  lemma CoherentParser(d: Tail)
    requires Coherent(d)
    ensures d.parser.Parser?
  {
  }

  /** After a byte and what it completed, the parser wants the next byte. */
  lemma ReadyAgain(d: Tail, b: byte)
    requires Coherent(d) && !HasToSend(d.parser)
    ensures !HasToSend(OneByte(d, b).parser) && OneByte(d, b).parser.pgOff == d.parser.pgOff + 1
  {
  }

  lemma StartedReady(n: nat)
    ensures Coherent(Started(n)) && !HasToSend(Started(n).parser) && Started(n).parser.pgOff == 0
  {
  }

  /** Whatever bytes have arrived, the processes behind the header wait for more. */
  lemma {:induction false} AlwaysReady(n: nat, bs: seq<byte>)
    ensures var d := Feed(Started(n), bs); Coherent(d) && !HasToSend(d.parser) && d.parser.pgOff == |bs|
  {
    hide Coherent, HasToSend, OneByte;
    if bs == [] {
      StartedReady(n);
      CoherentParser(Started(n));
    } else {
      var d, b := Feed(Started(n), bs[..|bs| - 1]), bs[|bs| - 1];
      AlwaysReady(n, bs[..|bs| - 1]);
      OneByteCoherent(d, b);
      CoherentParser(d);
      CoherentParser(OneByte(d, b));
      ReadyAgain(d, b);
    }
  }

  // ----- what the header does -----

  lemma FeedHeader(c: Config, s: State<Local, Datum>, k: nat, page: seq<byte>, pc: nat, d: Tail)
    requires k < |c.page| && HeaderNext(c.native, page, pc) == Get(IN) && c.depth > 0 && |d.decoders| == 4
    requires Reach(Network(c), s, At(Feeder(k), Header(page, pc), [], d))
    ensures Reach(Network(c), s, At(Feeder(k + 1), Header(page + [c.page[k]], pc), [], d))
  {
    hide HeaderNext, K.Body;
    var t := At(Feeder(k), Header(page, pc), [], d);
    var u := Hands(Network(c), s, t, FEEDER, HEADER, IN, Byte(c.page[k]));
    assert u.local == At(Feeder(k + 1), Header(page + [c.page[k]], pc), [], d).local;
  }

  lemma SendByte(c: Config, s: State<Local, Datum>, fd: Local, page: seq<byte>, pc: nat, data: seq<byte>, d: Tail,
                 b: byte)
    requires HeaderNext(c.native, page, pc) == Put(DATA, Byte(b)) && |data| < c.dataDepth && |d.decoders| == 4
    requires Reach(Network(c), s, At(fd, Header(page, pc), data, d))
    ensures Reach(Network(c), s, At(fd, Header(page, pc + 1), data + [b], d))
  {
    hide HeaderNext, K.Body;
    var t := At(fd, Header(page, pc), data, d);
    var u := Gives(Network(c), s, t, HEADER, DATA, Byte(b));
    assert Bytes(data) + [Byte(b)] == Bytes(data + [b]);
    assert u.fifo == Fifos(Bytes(data + [b]));
    assert u.local == At(fd, Header(page, pc + 1), data + [b], d).local;
  }

  /** The first m of the six have got their count. */
  function Counted(n: nat, m: nat): (d: Tail)
    ensures |d.decoders| == 4
  {
    Tail(if m > 0 then Parser(n, 0, 0, [], 0) else AwaitCount,
         [if m > 1 then Decoder(n, 0) else AwaitCount, if m > 2 then Decoder(n, 0) else AwaitCount,
          if m > 3 then Decoder(n, 0) else AwaitCount, if m > 4 then Decoder(n, 0) else AwaitCount],
         if m > 5 then Adder(n, 0, [], 0) else AwaitCount)
  }

  lemma SendCount(c: Config, s: State<Local, Datum>, fd: Local, page: seq<byte>, pc: nat, data: seq<byte>, n: nat,
                  m: nat)
    requires m < 6 && HeaderNext(c.native, page, pc) == Put(CountTo(m), Count(n)) && c.depth > 0
    requires Reach(Network(c), s, At(fd, Header(page, pc), data, Counted(n, m)))
    ensures Reach(Network(c), s, At(fd, Header(page, pc + 1), data, Counted(n, m + 1)))
  {
    hide HeaderNext, K.Body, HasToSend, ParserNext;
    var t := At(fd, Header(page, pc), data, Counted(n, m));
    CountTaken(c, fd, Header(page, pc), Header(page, pc + 1), data, n, m);
    hide Counted, At, CountReader, Got, CountTo;
    assert Next(c, HEADER, t.local[HEADER]) == Put(CountTo(m), Count(n));
    var u := Hands(Network(c), s, t, HEADER, CountReader(m), CountTo(m), Count(n));
  }

  /** Reader m waits for its count; taking it makes it one of those that have theirs. */
  lemma CountTaken(c: Config, fd: Local, hd: Local, hd': Local, data: seq<byte>, n: nat, m: nat)
    requires m < 6
    ensures var t, v, q := At(fd, hd, data, Counted(n, m)), At(fd, hd', data, Counted(n, m + 1)), CountReader(m);
            && HEADER < q < |t.local| == 8 && t.local[HEADER] == hd && t.local[q] == AwaitCount
            && Next(c, q, AwaitCount) == Get(CountTo(m)) && CountTo(m) < |t.fifo| && CountTo(m) != DATA
              && t.fifo[CountTo(m)] == []
            && v == State(t.local[HEADER := hd'][q := Got(q, AwaitCount, Count(n))], t.fifo)
  {
    var t, v, q := At(fd, hd, data, Counted(n, m)), At(fd, hd', data, Counted(n, m + 1)), CountReader(m);
    assert v.local == t.local[HEADER := hd'][q := Got(q, AwaitCount, Count(n))];
  }

  predicate Publishes(c: Config, page: seq<byte>, pc: nat, n: nat, m: nat) {
    HeaderNext(c.native, page, pc + m) == Put(CountTo(m), Count(n))
  }

  lemma {:induction false} SendCounts(c: Config, s: State<Local, Datum>, fd: Local, page: seq<byte>, pc: nat,
                                      data: seq<byte>, n: nat, m: nat)
    requires m <= 6 && c.depth > 0 && forall i: nat :: i < 6 ==> Publishes(c, page, pc, n, i)
    requires Reach(Network(c), s, At(fd, Header(page, pc), data, Counted(n, 0)))
    ensures Reach(Network(c), s, At(fd, Header(page, pc + m), data, Counted(n, m)))
  {
    hide HeaderNext, At, Counted;
    if m > 0 {
      SendCounts(c, s, fd, page, pc, data, n, m - 1);
      assert Publishes(c, page, pc, n, m - 1);
      SendCount(c, s, fd, page, pc + m - 1, data, n, m - 1);
    }
  }

  // ----- the bytes of the body, from first to last -----

  function BodyOf(c: Config): seq<byte> {
    K.Body(c.native, c.page)
  }

  function CountOf(c: Config): nat {
    K.Count(c.native, c.page)
  }

  /** The processes behind the header once j bytes of the body have arrived. */
  function After(c: Config, j: nat): Tail
    requires j <= |BodyOf(c)|
  {
    Feed(Started(CountOf(c)), BodyOf(c)[..j])
  }

  lemma TakeNext(c: Config, s: State<Local, Datum>, fd: Local, hd: Local, j: nat, data: seq<byte>)
    requires j < |BodyOf(c)| && c.depth > 0
    requires Reach(Network(c), s, At(fd, hd, [BodyOf(c)[j]] + data, After(c, j)))
    ensures Reach(Network(c), s, At(fd, hd, data, After(c, j + 1)))
  {
    hide K.Body, K.Count, OneByte, At, Coherent, HasToSend;
    var body := BodyOf(c);
    AlwaysReady(CountOf(c), body[..j]);
    CoherentParser(After(c, j));
    ByteArrives(c, s, fd, hd, data, After(c, j), body[j]);
    assert body[..j + 1][..j] == body[..j];
  }

  lemma AfterNothing(c: Config)
    ensures After(c, 0) == Started(CountOf(c)) == Counted(CountOf(c), 6)
  {
  }

  lemma FourDecoders(c: Config, j: nat)
    requires j <= |BodyOf(c)|
    ensures |After(c, j).decoders| == 4
  {
    hide HasToSend;
    AlwaysReady(CountOf(c), BodyOf(c)[..j]);
  }

  /** The parser empties dataStream. */
  lemma {:induction false} Drain(c: Config, s: State<Local, Datum>, fd: Local, hd: Local, j: nat, until: nat)
    requires j <= until <= |BodyOf(c)| && c.depth > 0
    requires Reach(Network(c), s, At(fd, hd, BodyOf(c)[..until], After(c, 0)))
    ensures Reach(Network(c), s, At(fd, hd, BodyOf(c)[j..until], After(c, j)))
  {
    hide At, After, BodyOf;
    var body := BodyOf(c);
    if j == 0 {
      assert body[0..until] == body[..until];
    } else {
      Drain(c, s, fd, hd, j - 1, until);
      assert body[j - 1..until] == [body[j - 1]] + body[j..until];
      TakeNext(c, s, fd, hd, j - 1, body[j..until]);
    }
  }

  /** Byte j goes through dataStream, empty before and after. */
  lemma PassByte(c: Config, s: State<Local, Datum>, fd: Local, page: seq<byte>, pc: nat, j: nat)
    requires j < |BodyOf(c)| && c.depth > 0 && c.dataDepth > 0
    requires HeaderNext(c.native, page, pc) == Put(DATA, Byte(BodyOf(c)[j]))
    requires Reach(Network(c), s, At(fd, Header(page, pc), [], After(c, j)))
    ensures Reach(Network(c), s, At(fd, Header(page, pc + 1), [], After(c, j + 1)))
  {
    hide At, After, BodyOf, HeaderNext;
    FourDecoders(c, j);
    var b := BodyOf(c)[j];
    SendByte(c, s, fd, page, pc, [], After(c, j), b);
    assert [] + [b] == [b] + [];
    TakeNext(c, s, fd, Header(page, pc + 1), j, []);
  }

  // ----- the peer-to-peer header -----

  /** A page the header and the parser can process, every FIFO able to hold something. */
  ghost predicate Usable(c: Config) {
    K.PageOk(c.native, c.page) && c.depth > 0 && c.dataDepth > 0
  }

  lemma NativeSizes(c: Config)
    requires c.native && H.PageReadable(c.page)
    ensures |c.page| == |BodyOf(c)| == PAGE_SZ && Early(true, c.page) < PAGE_SZ
  {
    hide H.Items, H.Fit;
    H.FitBounds(H.Items(c.page, 0), 0);
  }

  lemma {:induction false} ReadWholePage(c: Config, k: nat)
    requires c.native && k <= |c.page| == PAGE_SZ && c.depth > 0
    ensures Reach(Network(c), Initial(c), At(Feeder(k), Header(c.page[..k], 0), [], WAITING))
  {
    hide At, Send;
    if k == 0 {
      Start(Network(c), Initial(c));
      assert c.page[..0] == [];
    } else {
      ReadWholePage(c, k - 1);
      FeedHeader(c, Initial(c), k - 1, c.page[..k - 1], 0, WAITING);
      assert c.page[..k - 1] + [c.page[k - 1]] == c.page[..k];
    }
  }

  /** While nobody has a count, the tuple bytes pile up in dataStream. */
  lemma {:induction false} PileUp(c: Config, j: nat)
    requires c.native && H.PageReadable(c.page) && c.depth > 0 && j <= c.dataDepth && j <= Early(true, c.page)
    ensures |c.page| == PAGE_SZ && j <= |BodyOf(c)|
    ensures Reach(Network(c), Initial(c), At(Feeder(PAGE_SZ), Header(c.page, j), BodyOf(c)[..j], WAITING))
  {
    hide At, H.PageReadable, K.Body, H.Concat, K.Extracted;
    NativeSizes(c);
    var body := BodyOf(c);
    if j == 0 {
      ReadWholePage(c, PAGE_SZ);
      assert c.page[..PAGE_SZ] == c.page && body[..0] == [];
    } else {
      PileUp(c, j - 1);
      SendByte(c, Initial(c), Feeder(PAGE_SZ), c.page, j - 1, body[..j - 1], WAITING, body[j - 1]);
      assert body[..j - 1] + [body[j - 1]] == body[..j];
    }
  }

  lemma PublishNative(c: Config)
    requires c.native && |c.page| == PAGE_SZ
    ensures forall i: nat :: i < 6 ==> Publishes(c, c.page, Early(true, c.page), CountOf(c), i)
  {
    hide K.Body, K.Count, Early;
  }

  lemma RestNative(c: Config, j: nat)
    requires c.native && |c.page| == PAGE_SZ && Early(true, c.page) <= j < |BodyOf(c)|
    ensures HeaderNext(true, c.page, j + 6) == Put(DATA, Byte(BodyOf(c)[j]))
  {
    hide Early, K.Body, K.Count;
  }

  /** Tuples piled up, counts published, dataStream emptied. */
  lemma CountsOut(c: Config)
    requires Usable(c) && c.native && Early(true, c.page) <= c.dataDepth
    ensures Early(true, c.page) <= |BodyOf(c)|
    ensures Reach(Network(c), Initial(c),
        At(Feeder(PAGE_SZ), Header(c.page, Early(true, c.page) + 6), [], After(c, Early(true, c.page))))
  {
    hide At, After, BodyOf, CountOf, Early, Publishes, HeaderNext, H.PageReadable, Counted;
    var s, e := Initial(c), Early(true, c.page);
    NativeSizes(c);
    PileUp(c, e);
    PublishNative(c);
    NothingCounted(CountOf(c));
    SendCounts(c, s, Feeder(PAGE_SZ), c.page, e, BodyOf(c)[..e], CountOf(c), 6);
    AfterNothing(c);
    Drain(c, s, Feeder(PAGE_SZ), Header(c.page, e + 6), e, e);
    assert BodyOf(c)[e..e] == [];
  }

  lemma NothingCounted(n: nat)
    ensures Counted(n, 0) == WAITING
  {
  }

  lemma {:induction false} RestOut(c: Config, j: nat)
    requires Usable(c) && c.native && Early(true, c.page) <= c.dataDepth && Early(true, c.page) <= j <= |BodyOf(c)|
    ensures Reach(Network(c), Initial(c), At(Feeder(PAGE_SZ), Header(c.page, j + 6), [], After(c, j)))
  {
    hide At, After, BodyOf, HeaderNext, Early, H.PageReadable;
    if j == Early(true, c.page) {
      CountsOut(c);
    } else {
      RestOut(c, j - 1);
      NativeSizes(c);
      RestNative(c, j - 1);
      PassByte(c, Initial(c), Feeder(PAGE_SZ), c.page, j + 5, j - 1);
    }
  }

  // ----- the header of repacked pages -----

  lemma RepackedSizes(c: Config)
    requires !c.native && K.PageOk(false, c.page)
    ensures |c.page| == PAGE_SZ && |BodyOf(c)| == PAGE_SZ - 2 && Early(false, c.page) == 0
  {
  }

  /** The first two bytes decide the count. */
  lemma PublishRepacked(c: Config)
    requires !c.native && K.PageOk(false, c.page)
    ensures |c.page| == PAGE_SZ && forall i: nat :: i < 6 ==> Publishes(c, c.page[..2], 0, CountOf(c), i)
  {
  }

  lemma ReadTwo(c: Config)
    requires Usable(c) && !c.native
    ensures |c.page| == PAGE_SZ
    ensures Reach(Network(c), Initial(c), At(Feeder(2), Header(c.page[..2], 0), [], WAITING))
  {
    hide At, Send, K.Body;
    Start(Network(c), Initial(c));
    FeedHeader(c, Initial(c), 0, [], 0, WAITING);
    FeedHeader(c, Initial(c), 1, [] + [c.page[0]], 0, WAITING);
    assert [] + [c.page[0]] + [c.page[1]] == c.page[..2];
  }

  lemma RestRepacked(c: Config, j: nat)
    requires !c.native && |c.page| == PAGE_SZ && j < PAGE_SZ - 2
    ensures HeaderNext(false, c.page[..2 + j], j + 6) == Get(IN)
    ensures j < |BodyOf(c)| && HeaderNext(false, c.page[..3 + j], j + 6) == Put(DATA, Byte(BodyOf(c)[j]))
  {
  }

  lemma {:induction false} Repacked(c: Config, j: nat)
    requires Usable(c) && !c.native && j <= |BodyOf(c)|
    ensures j + 2 <= |c.page|
    ensures Reach(Network(c), Initial(c), At(Feeder(j + 2), Header(c.page[..j + 2], j + 6), [], After(c, j)))
  {
    hide At, After, BodyOf, CountOf, HeaderNext, Counted, Publishes, K.HeaderCount, K.PageOk;
    var s := Initial(c);
    RepackedSizes(c);
    if j == 0 {
      ReadTwo(c);
      PublishRepacked(c);
      NothingCounted(CountOf(c));
      SendCounts(c, s, Feeder(2), c.page[..2], 0, [], CountOf(c), 6);
      AfterNothing(c);
    } else {
      Repacked(c, j - 1);
      RestRepacked(c, j - 1);
      FourDecoders(c, j - 1);
      FeedHeader(c, s, j + 1, c.page[..j + 1], j + 5, After(c, j - 1));
      assert c.page[..j + 1] + [c.page[j + 1]] == c.page[..j + 2];
      PassByte(c, s, Feeder(j + 2), c.page[..j + 2], j + 5, j - 1);
    }
  }

  // ----- the end of the page -----

  lemma Finish(c: Config, s: State<Local, Datum>, fd: Local, hd: Local)
    requires Usable(c) && Reach(Network(c), s, At(fd, hd, [], After(c, |BodyOf(c)|)))
    ensures var n := CountOf(c);
            Reach(Network(c), s, At(fd, hd, [],
              Tail(Done(0), [Decoder(n, n), Decoder(n, n), Decoder(n, n), Decoder(n, n)],
                                                     Done(Int64(K.PageSum(c.native, c.page))))))
  {
    hide K.PageOk, K.Body, K.Count, K.PageSum, Int64, Feed, HasField;
    var n, body := CountOf(c), BodyOf(c);
    assert body[..|body|] == body;
    PageParse.WholePage(c.native, c.page);
    var t := At(fd, hd, [], After(c, |body|));
    var u := Hands(Network(c), s, t, PARSER, ADDER, EOP, EndOfPage);
    assert u.local == At(fd, hd, [],
      Tail(Done(0), After(c, |body|).decoders, Done(Int64(K.PageSum(c.native, c.page))))).local;
  }

  lemma FinalReached(c: Config)
    requires Usable(c) && Early(c.native, c.page) <= c.dataDepth
    ensures Reach(Network(c), Initial(c), Final(c))
  {
    hide At, After, HeaderNext, H.PageReadable, K.Body, K.PageSum, Int64, Early, K.Count, Lineitem.RowsOk;
    var n := |BodyOf(c)|;
    if c.native {
      NativeSizes(c);
      RestOut(c, n);
    } else {
      RepackedSizes(c);
      Repacked(c, n);
      assert c.page[..n + 2] == c.page;
    }
    Finish(c, Initial(c), Feeder(|c.page|), Header(c.page, n + 6));
  }

  /** The counts go out before the body ends. */
  lemma EarlyFits(native: bool, page: seq<byte>)
    requires K.PageOk(native, page)
    ensures |page| == PAGE_SZ && Early(native, page) <= |K.Body(native, page)|
  {
    hide Lineitem.RowsOk, H.PageReadable, K.HeaderCount;
    var c := Config(native, page, 1, 1);
    if native {
      NativeSizes(c);
    } else {
      RepackedSizes(c);
    }
  }

  lemma EarlyIsLess(native: bool, page: seq<byte>)
    requires K.PageOk(native, page)
    ensures Early(native, page) < PAGE_SZ && (!native ==> Early(native, page) == 0)
  {
    hide Lineitem.RowsOk, H.PageReadable, K.HeaderCount;
    if native {
      NativeSizes(Config(native, page, 1, 1));
    }
  }

  lemma FinalBlocked(c: Config)
    requires Usable(c)
    ensures Blocked(Network(c), Final(c))
  {
    hide K.Body, K.PageSum, Int64, K.Count, Lineitem.RowsOk, H.PageReadable, K.HeaderCount, Early;
    assert Early(c.native, c.page) <= |BodyOf(c)| && |c.page| == PAGE_SZ by {
      if c.native {
        NativeSizes(c);
      } else {
        RepackedSizes(c);
      }
    }
    var t := Final(c);
    forall p: nat | p < |t.local|
      ensures Next(c, p, t.local[p]) == Stop
    {
    }
  }

  /** dataStream is full, and nobody reads it for want of a count. */
  function Starved(c: Config): State<Local, Datum>
    requires c.dataDepth <= |BodyOf(c)|
  {
    At(Feeder(PAGE_SZ), Header(c.page, c.dataDepth), BodyOf(c)[..c.dataDepth], WAITING)
  }

  lemma StarvedBlocked(c: Config)
    requires c.native && H.PageReadable(c.page) && c.dataDepth < Early(true, c.page)
    ensures c.dataDepth <= |BodyOf(c)| && Blocked(Network(c), Starved(c))
  {
    hide K.Body, K.Count, H.PageReadable, Early;
    NativeSizes(c);
    var t := Starved(c);
    forall p: nat
      ensures !Enabled(Network(c), t, p)
    {
    }
  }

  // ----- the theorems -----

  /**
    With room for the tuple bytes in dataStream and for one value elsewhere: whatever the scheduler has
    done so far, it can finish; and it is stuck exactly when every FIFO is empty and the sum is there.
  */
  lemma EveryScheduleFinishes(c: Config, u: State<Local, Datum>)
    requires Usable(c) && Early(c.native, c.page) <= c.dataDepth && Reach(Network(c), Initial(c), u)
    ensures Always(Network(c), Initial(c), Final(c)) && Reach(Network(c), u, Final(c))
    ensures Blocked(Network(c), u) <==> u == Final(c)
    ensures Final(c).local[ADDER] == Done(Int64(K.PageSum(c.native, c.page)))
    ensures forall ch :: 0 <= ch < CHANNELS ==> Final(c).fifo[ch] == []
  {
    hide At, HeaderNext, K.Body, K.PageSum, Int64, Early, K.Count, K.PageOk;
    FinalReached(c);
    FinalBlocked(c);
    NetworkDisciplined(c);
    OneScheduleSuffices(Network(c), Initial(c), Final(c));
    AlwaysMeans(Network(c), Initial(c), Final(c), u);
    FinalParts(c);
  }

  lemma FinalParts(c: Config)
    ensures Final(c).local[ADDER] == Done(Int64(K.PageSum(c.native, c.page)))
    ensures forall ch :: 0 <= ch < CHANNELS ==> Final(c).fifo[ch] == []
  {
    hide K.PageSum, Int64, K.Body, K.Count;
  }

  /**
    With less room than that, the peer-to-peer unit gets stuck under every schedule, its aggregator without even a
    count.
  */
  lemma TooShallowStarves(c: Config, u: State<Local, Datum>)
    requires c.native && H.PageReadable(c.page) && c.depth > 0 && c.dataDepth < Early(true, c.page)
    requires Reach(Network(c), Initial(c), u)
    ensures c.dataDepth <= |BodyOf(c)|
    ensures Always(Network(c), Initial(c), Starved(c))
    ensures Blocked(Network(c), u) <==> u == Starved(c)
    ensures Starved(c).local[ADDER] == AwaitCount
  {
    hide HeaderNext, K.Body, Early, H.PageReadable;
    PileUp(c, c.dataDepth);
    StarvedBlocked(c);
    NetworkDisciplined(c);
    OneScheduleSuffices(Network(c), Initial(c), Starved(c));
    AlwaysMeans(Network(c), Initial(c), Starved(c), u);
  }

  /** The depth of dataStream decides: the peer-to-peer unit finishes exactly when the page's tuple bytes fit. */
  lemma FinishesExactly(c: Config)
    requires Usable(c) && c.native
    ensures Always(Network(c), Initial(c), Final(c)) <==> |H.Concat(K.Extracted(c.page))| <= c.dataDepth
  {
    hide K.Extracted, HeaderNext, K.Body, K.PageSum, Int64, K.Count, H.PageReadable, Lineitem.RowsOk;
    var net, s := Network(c), Initial(c);
    Start(net, s);
    if Early(true, c.page) <= c.dataDepth {
      EveryScheduleFinishes(c, s);
    } else if Always(net, s, Final(c)) {
      AlwaysMeans(net, s, Final(c), s);
      FinalBlocked(c);
      TooShallowStarves(c, Final(c));
      FinalParts(c);
      assert false;
    }
  }

  /** The guard keeps the tuple bytes below a page, so the declared depth of 8192 suffices for every readable page. */
  lemma DeclaredDepthSuffices(c: Config)
    requires Usable(c) && c.native && c.dataDepth >= 8192
    ensures Always(Network(c), Initial(c), Final(c))
  {
    hide H.PageReadable, K.Extracted;
    NativeSizes(c);
    FinishesExactly(c);
  }

  /** Publishing the count first, as for repacked pages, every depth from 1 on suffices. */
  lemma CountFirstNeverStarves(c: Config)
    requires Usable(c) && !c.native
    ensures Always(Network(c), Initial(c), Final(c))
  {
    RepackedSizes(c);
    Start(Network(c), Initial(c));
    EveryScheduleFinishes(c, Initial(c));
  }
}
