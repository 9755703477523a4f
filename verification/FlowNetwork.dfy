/**
  The whole Query 6 kernel on one block as a network of concurrent processes joined by bounded FIFOs: the
  reader that deals pages word by word, and per unit a byte converter, the header, parser, decoders and
  aggregator of `PageNetwork` taking page after page, and at the end the sum over the units. A unit begins
  a page when its aggregator has finished the one before. Shown for every schedule: nothing gets stuck
  before the block's sum is there.
*/
module FlowNetwork {
  import opened Machine
  import opened Kahn
  import opened Flatten
  import R = Runs
  import Lineitem
  import PP = PageParse
  import N = PageNetwork
  import F = FlowWrap
  import H = HeapPage
  import K = Kernel

  /** Header stage, block, units, pages to a unit, the depth of every dataStream, and of every other FIFO. */
  datatype Config = Config(native: bool, block: seq<byte>, numPu: nat, pagesPerPu: nat, dataDepth: nat, depth: nat)

  /** What a page's own network passes on; a word of the block; a unit's sum; leave to begin the next page. */
  datatype Datum = Item(d: N.Datum) | Word(w: seq<byte>) | Sum(x: int) | Token

  /**
    The reader in its three loops; the final adder; the byte converter with the words taken and the rest of
    the last one; a stage of a unit on some page; a header waiting to begin a page; a unit's aggregator with
    the sum over earlier pages.
  */
  datatype Local =
    | Reader(i: nat, u: nat, j: nat)
    | Total(u: nat, sum: int)
    | Bytes(words: nat, rest: seq<byte>)
    | Stage(page: nat, l: PP.Local)
    | AwaitToken(page: nat)
    | AddUp(page: nat, total: int, l: PP.Local)
    | Ended

  const READER: nat := 0
  const TOP: nat := 1
  const STAGES: nat := 8
  const CHANNELS: nat := 20
  const WORDS: nat := 17
  const SUM: nat := 18
  const TOKEN: nat := 19

  /** Stage p of unit u, and channel ch of unit u. */
  function Proc(u: nat, p: nat): nat {
    2 + (Product(u, STAGES) + p)
  }

  function Chan(u: nat, ch: nat): nat {
    Product(u, CHANNELS) + ch
  }

  function ReaderOf(ch: nat): nat {
    var u, c := ch / CHANNELS, ch % CHANNELS;
    if c == WORDS then Proc(u, N.FEEDER) else if c == SUM then TOP
    else if c == TOKEN then Proc(u, N.HEADER) else Proc(u, N.ReaderOf(c))
  }

  function WriterOf(ch: nat): nat {
    var u, c := ch / CHANNELS, ch % CHANNELS;
    if c == WORDS then READER else if c == SUM || c == TOKEN then Proc(u, N.ADDER) else Proc(u, N.WriterOf(c))
  }

  // ----- the processes -----

  function PageOf(c: Config, u: nat, i: nat): seq<byte> {
    F.UnitPage(c.block, c.numPu, u, i)
  }

  /** The network of unit u on its page i. */
  function Inner(c: Config, u: nat, i: nat): N.Config {
    N.Config(c.native, PageOf(c, u, i), c.dataDepth, c.depth)
  }

  /** Word j of page i of unit u, by its place in the block. */
  function WordOf(c: Config, i: nat, u: nat, j: nat): seq<byte> {
    var w := F.WORDS_PER_PAGE * (Product(i, c.numPu) + u) + j;
    if F.WORD_SZ * w + F.WORD_SZ <= |c.block| then F.WordAt(c.block, w) else []
  }

  /** An action of a page's network as one of unit u. */
  function Lift(u: nat, a: Act<N.Datum>): Act<Datum> {
    match a
    case Get(ch) => Get(Chan(u, ch))
    case Put(ch, d) => Put(Chan(u, ch), Item(d))
    case Stop => Stop
  }

  function UnitNext(c: Config, u: nat, p: nat, l: Local): Act<Datum> {
    match l
    case Bytes(words, rest) =>
      if p != N.FEEDER then Stop
      else if rest != [] then Put(Chan(u, N.IN), Item(N.Byte(rest[0])))
      else if words < F.WORDS_PER_PAGE * c.pagesPerPu then Get(Chan(u, WORDS))
      else Stop
    case Stage(page, i) =>
      if p == N.FEEDER || p == N.ADDER || page >= c.pagesPerPu then Stop else Lift(u, N.Next(Inner(c, u, page), p, i))
    case AwaitToken(page) => if p == N.HEADER && page < c.pagesPerPu then Get(Chan(u, TOKEN)) else Stop
    case AddUp(page, total, i) =>
      if p != N.ADDER then Stop
      else if page >= c.pagesPerPu then Put(Chan(u, SUM), Sum(total))
      else if i.Done? then Put(Chan(u, TOKEN), Token)
      else Lift(u, N.Next(Inner(c, u, page), p, i))
    case _ => Stop
  }

  function Next(c: Config, p: nat, l: Local): Act<Datum> {
    if p == READER then
      if l.Reader? && l.i < c.pagesPerPu && l.u < c.numPu then Put(Chan(l.u, WORDS), Word(WordOf(c, l.i, l.u, l.j)))
        else Stop
    else if p == TOP then
      if l.Total? && l.u < c.numPu then Get(Chan(l.u, SUM)) else Stop
    else UnitNext(c, (p - 2) / STAGES, (p - 2) % STAGES, l)
  }

  /** A stage that has nothing more to do on its page turns to the next one; the header waits for leave. */
  function After(c: Config, u: nat, p: nat, page: nat, i: PP.Local): Local {
    if N.Next(Inner(c, u, page), p, i) != Stop then Stage(page, i)
    else if p == N.HEADER then AwaitToken(page + 1)
    else Stage(page + 1, PP.AwaitCount)
  }

  /** The aggregator at the end of the last page goes on to hand its sum over. */
  function Added(c: Config, page: nat, total: int, i: PP.Local): Local {
    if i.Done? && page + 1 >= c.pagesPerPu then AddUp(page + 1, Int64(total + i.sum), PP.AwaitCount)
      else AddUp(page, total, i)
  }

  function UnitGot(c: Config, u: nat, p: nat, l: Local, v: Datum): Local {
    match (l, v)
    case (Bytes(words, _), Word(w)) => Bytes(words + 1, w)
    case (Stage(page, i), Item(d)) => After(c, u, p, page, N.Got(p, i, d))
    case (AwaitToken(page), Token) => Stage(page, PP.Header([], 0))
    case (AddUp(page, total, i), Item(d)) => Added(c, page, total, N.Got(p, i, d))
    case _ => l
  }

  function UnitSent(c: Config, u: nat, p: nat, l: Local): Local {
    match l
    case Bytes(words, rest) => Bytes(words, if rest == [] then [] else rest[1..])
    case Stage(page, i) => After(c, u, p, page, N.Sent(i))
    case AddUp(page, total, i) =>
      if page >= c.pagesPerPu then Ended
      else if i.Done? then AddUp(page + 1, Int64(total + i.sum), PP.AwaitCount)
      else AddUp(page, total, N.Sent(i))
    case _ => l
  }

  /** The reader's place after t words of page i of unit u. */
  function ReaderAt(c: Config, i: nat, u: nat, t: nat): Local {
    if t < F.WORDS_PER_PAGE then Reader(i, u, t) else if u + 1 < c.numPu then Reader(i, u + 1, 0)
      else Reader(i + 1, 0, 0)
  }

  function Got(c: Config, p: nat, l: Local, v: Datum): Local {
    if p == TOP then (if l.Total? && v.Sum? then Total(l.u + 1, Int64(l.sum + v.x)) else l)
    else if p == READER then l
    else UnitGot(c, (p - 2) / STAGES, (p - 2) % STAGES, l, v)
  }

  function Sent(c: Config, p: nat, l: Local): Local {
    if p == READER then (if l.Reader? then ReaderAt(c, l.i, l.u, l.j + 1) else l)
    else if p == TOP then l
    else UnitSent(c, (p - 2) / STAGES, (p - 2) % STAGES, l)
  }

  function Capacity(c: Config, ch: nat): nat {
    if ch % CHANNELS == N.DATA then c.dataDepth else c.depth
  }

  function Network(c: Config): Net<Local, Datum> {
    Net((p, l) => Next(c, p, l), (p, l, v) => Got(c, p, l, v), (p, l) => Sent(c, p, l),
        ch => Capacity(c, ch), ReaderOf, WriterOf)
  }

  lemma ProcOf(u: nat, p: nat)
    requires p < STAGES
    ensures (Proc(u, p) - 2) / STAGES == u && (Proc(u, p) - 2) % STAGES == p
  {
    ProductIs(u, STAGES);
    DivideUnique(Proc(u, p) - 2, STAGES, u, p);
  }

  lemma ChanOf(u: nat, ch: nat)
    requires ch < CHANNELS
    ensures Chan(u, ch) / CHANNELS == u && Chan(u, ch) % CHANNELS == ch
  {
    ProductIs(u, CHANNELS);
    DivideUnique(Chan(u, ch), CHANNELS, u, ch);
  }

  lemma ProcBack(p: nat)
    requires p >= 2
    ensures Proc((p - 2) / STAGES, (p - 2) % STAGES) == p
  {
    ProductIs((p - 2) / STAGES, STAGES);
  }

  lemma InnerEnds(c: N.Config, p: nat, l: PP.Local)
    ensures N.Next(c, p, l).Get? ==> N.Next(c, p, l).ch < WORDS && N.ReaderOf(N.Next(c, p, l).ch) == p
    ensures N.Next(c, p, l).Put? ==> N.Next(c, p, l).ch < WORDS && N.WriterOf(N.Next(c, p, l).ch) == p
  {
    hide K.Body, K.Count, H.Concat, K.Extracted;
  }

  lemma UnitEnds(c: Config, u: nat, p: nat, l: Local)
    requires p < STAGES
    ensures UnitNext(c, u, p, l).Get? ==> ReaderOf(UnitNext(c, u, p, l).ch) == Proc(u, p)
    ensures UnitNext(c, u, p, l).Put? ==> WriterOf(UnitNext(c, u, p, l).ch) == Proc(u, p)
  {
    hide Proc, Chan, N.Next, N.ReaderOf, N.WriterOf;
    forall ch: nat | ch < CHANNELS
      ensures Chan(u, ch) / CHANNELS == u && Chan(u, ch) % CHANNELS == ch
    {
      ChanOf(u, ch);
    }
    if l.Stage? {
      InnerEnds(Inner(c, u, l.page), p, l.l);
    } else if l.AddUp? {
      InnerEnds(Inner(c, u, l.page), p, l.l);
    } else if l.Bytes? {
      assert N.WriterOf(N.IN) == N.FEEDER by {
        InIsFed();
      }
    }
  }

  lemma InIsFed()
    ensures N.WriterOf(N.IN) == N.FEEDER
  {
  }

  lemma NetworkDisciplined(c: Config)
    ensures Disciplined(Network(c))
  {
    hide UnitNext, Proc, Chan, N.ReaderOf, N.WriterOf;
    forall p: nat, l: Local
      ensures Next(c, p, l).Get? ==> ReaderOf(Next(c, p, l).ch) == p
      ensures Next(c, p, l).Put? ==> WriterOf(Next(c, p, l).ch) == p
    {
      if p >= 2 {
        UnitEnds(c, (p - 2) / STAGES, (p - 2) % STAGES, l);
        ProcBack(p);
      } else if l.Reader? {
        ChanOf(l.u, WORDS);
      } else if l.Total? {
        ChanOf(l.u, SUM);
      }
    }
  }

  // ----- states, put together from units -----

  predicate Sized(c: Config, units: seq<seq<Local>>, fifos: seq<seq<seq<Datum>>>) {
    |units| == |fifos| == c.numPu && Rectangular(units, STAGES) && Rectangular(fifos, CHANNELS)
  }

  function Build(rd: Local, top: Local, units: seq<seq<Local>>, fifos: seq<seq<seq<Datum>>>): State<Local, Datum> {
    State([rd, top] + Flat(units), Flat(fifos))
  }

  lemma StageAt(rd: Local, top: Local, units: seq<seq<Local>>, u: nat, p: nat, x: Local)
    requires Rectangular(units, STAGES) && u < |units| && p < STAGES
    ensures var all := [rd, top] + Flat(units);
            && Proc(u, p) < |all| && all[Proc(u, p)] == units[u][p]
            && all[Proc(u, p) := x] == [rd, top] + Flat(units[u := units[u][p := x]])
  {
    hide Flat, Product;
    FlatAt(units, STAGES, u, p);
    FlatUpdate(units, STAGES, u, p, x);
    BehindPrefix([rd, top], Flat(units), Product(u, STAGES) + p, x);
  }

  lemma BehindPrefix<T>(a: seq<T>, b: seq<T>, at: nat, x: T)
    requires at < |b|
    ensures (a + b)[|a| + at] == b[at] && (a + b)[|a| + at := x] == a + b[at := x]
  {
  }

  lemma FifoAt(fifos: seq<seq<seq<Datum>>>, u: nat, ch: nat, q: seq<Datum>)
    requires Rectangular(fifos, CHANNELS) && u < |fifos| && ch < CHANNELS
    ensures Chan(u, ch) < |Flat(fifos)| && Flat(fifos)[Chan(u, ch)] == fifos[u][ch]
    ensures Flat(fifos)[Chan(u, ch) := q] == Flat(fifos[u := fifos[u][ch := q]])
  {
    FlatAt(fifos, CHANNELS, u, ch);
    FlatUpdate(fifos, CHANNELS, u, ch, q);
  }

  /** A stage takes a value. */
  lemma UnitTakes(c: Config, s: State<Local, Datum>, rd: Local, top: Local, units: seq<seq<Local>>,
                  fifos: seq<seq<seq<Datum>>>, u: nat, p: nat, ch: nat, v: Datum, rest: seq<Datum>)
    requires Sized(c, units, fifos) && u < c.numPu && p < STAGES && ch < CHANNELS
    requires UnitNext(c, u, p, units[u][p]) == Get(Chan(u, ch)) && fifos[u][ch] == [v] + rest
    requires Reach(Network(c), s, Build(rd, top, units, fifos))
    ensures Reach(Network(c), s, Build(rd, top, units[u := units[u][p := UnitGot(c, u, p, units[u][p], v)]],
                                       fifos[u := fifos[u][ch := rest]]))
  {
    hide Flat, UnitNext, UnitGot, Proc, Chan;
    var t := Build(rd, top, units, fifos);
    ProcOf(u, p);
    ProcBig(u, p);
    StageAt(rd, top, units, u, p, UnitGot(c, u, p, units[u][p], v));
    FifoAt(fifos, u, ch, rest);
    var r := Takes(Network(c), s, t, Proc(u, p), Chan(u, ch), v, rest);
  }

  lemma ProcBig(u: nat, p: nat)
    ensures Proc(u, p) >= 2
  {
  }

  /** A stage passes a value on. */
  lemma UnitGives(c: Config, s: State<Local, Datum>, rd: Local, top: Local, units: seq<seq<Local>>,
                  fifos: seq<seq<seq<Datum>>>, u: nat, p: nat, ch: nat, v: Datum)
    requires Sized(c, units, fifos) && u < c.numPu && p < STAGES && ch < CHANNELS
    requires UnitNext(c, u, p, units[u][p]) == Put(Chan(u, ch), v)
    requires |fifos[u][ch]| < if ch == N.DATA then c.dataDepth else c.depth
    requires Reach(Network(c), s, Build(rd, top, units, fifos))
    ensures Reach(Network(c), s, Build(rd, top, units[u := units[u][p := UnitSent(c, u, p, units[u][p])]],
                                       fifos[u := fifos[u][ch := fifos[u][ch] + [v]]]))
  {
    hide Flat, UnitNext, UnitSent, Proc, Chan;
    var t := Build(rd, top, units, fifos);
    ProcOf(u, p);
    ProcBig(u, p);
    ChanOf(u, ch);
    StageAt(rd, top, units, u, p, UnitSent(c, u, p, units[u][p]));
    FifoAt(fifos, u, ch, fifos[u][ch] + [v]);
    var r := Gives(Network(c), s, t, Proc(u, p), Chan(u, ch), v);
  }

  /** The reader deals the next word. */
  lemma ReaderGives(c: Config, s: State<Local, Datum>, i: nat, u: nat, j: nat, top: Local, units: seq<seq<Local>>,
                    fifos: seq<seq<seq<Datum>>>)
    requires Sized(c, units, fifos) && u < c.numPu && i < c.pagesPerPu && |fifos[u][WORDS]| < c.depth
    requires Reach(Network(c), s, Build(Reader(i, u, j), top, units, fifos))
    ensures Reach(Network(c), s, Build(ReaderAt(c, i, u, j + 1), top, units,
                                       fifos[u := fifos[u][WORDS := fifos[u][WORDS] + [Word(WordOf(c, i, u, j))]]]))
  {
    hide Flat, ReaderAt, WordOf, Chan, UnitNext, UnitGot, UnitSent;
    var t := Build(Reader(i, u, j), top, units, fifos);
    ChanOf(u, WORDS);
    FifoAt(fifos, u, WORDS, fifos[u][WORDS] + [Word(WordOf(c, i, u, j))]);
    var r := Gives(Network(c), s, t, READER, Chan(u, WORDS), Word(WordOf(c, i, u, j)));
    assert r.local == [ReaderAt(c, i, u, j + 1), top] + Flat(units);
  }

  /** A unit hands its sum over. */
  lemma TopTakes(c: Config, s: State<Local, Datum>, rd: Local, u: nat, sum: int, units: seq<seq<Local>>,
                 fifos: seq<seq<seq<Datum>>>, x: int, rest: seq<Datum>)
    requires Sized(c, units, fifos) && u < c.numPu && fifos[u][SUM] == [Sum(x)] + rest
    requires Reach(Network(c), s, Build(rd, Total(u, sum), units, fifos))
    ensures Reach(Network(c), s, Build(rd, Total(u + 1, Int64(sum + x)), units, fifos[u := fifos[u][SUM := rest]]))
  {
    hide Flat, Int64, Chan, UnitNext, UnitGot, UnitSent;
    var t := Build(rd, Total(u, sum), units, fifos);
    FifoAt(fifos, u, SUM, rest);
    var r := Takes(Network(c), s, t, TOP, Chan(u, SUM), Sum(x), rest);
    assert r.local == [rd, Total(u + 1, Int64(sum + x))] + Flat(units);
  }

  // ----- a page's own network inside the unit -----

  /** Bytes that the converter still holds when k bytes of the page have left it. */
  function RestOf(page: seq<byte>, k: nat): seq<byte> {
    var end := (k + F.WORD_SZ - 1) / F.WORD_SZ * F.WORD_SZ;
    if k <= end <= |page| then page[k..end] else []
  }

  function WordsTaken(k: nat): nat {
    (k + F.WORD_SZ - 1) / F.WORD_SZ
  }

  /** Stage p of unit u on its page i, when it is in local state l in the page's own network. */
  function InUnit(c: Config, u: nat, i: nat, total: int, p: nat, l: PP.Local): Local {
    if p == N.FEEDER then
      var k := if l.Feeder? then l.k else 0;
      Bytes(F.WORDS_PER_PAGE * i + WordsTaken(k), RestOf(PageOf(c, u, i), k))
    else if p == N.ADDER then Added(c, i, total, l)
    else After(c, u, p, i, l)
  }

  function StagesOf(c: Config, u: nat, i: nat, total: int, s: State<PP.Local, N.Datum>): (ls: seq<Local>)
    requires |s.local| == STAGES
    ensures |ls| == STAGES && forall p :: 0 <= p < STAGES ==> ls[p] == InUnit(c, u, i, total, p, s.local[p])
  {
    seq(STAGES, p requires 0 <= p < STAGES => InUnit(c, u, i, total, p, s.local[p]))
  }

  function Items(q: seq<N.Datum>): (r: seq<Datum>)
    ensures |r| == |q| && forall k :: 0 <= k < |q| ==> r[k] == Item(q[k])
  {
    seq(|q|, k requires 0 <= k < |q| => Item(q[k]))
  }

  function FifosOf(s: State<PP.Local, N.Datum>): (qs: seq<seq<Datum>>)
    requires |s.fifo| == N.CHANNELS
    ensures |qs| == CHANNELS && forall ch :: 0 <= ch < CHANNELS ==> qs[ch] == if ch < WORDS then Items(s.fifo[ch])
        else []
  {
    seq(CHANNELS, ch requires 0 <= ch < CHANNELS => if ch < WORDS then Items(s.fifo[ch]) else [])
  }

  function Fed(s: State<PP.Local, N.Datum>): nat {
    if |s.local| > 0 && s.local[0].Feeder? then s.local[0].k else 0
  }

  /** A state of the page's own network, seen in the whole: unit u on its page i, everything else as given. */
  function Whole(c: Config, u: nat, i: nat, total: int, top: Local, units: seq<seq<Local>>,
                 fifos: seq<seq<seq<Datum>>>, s: State<PP.Local, N.Datum>): State<Local, Datum>
    requires |s.local| == STAGES && |s.fifo| == N.CHANNELS && u < |units| && u < |fifos|
  {
    Build(ReaderAt(c, i, u, WordsTaken(Fed(s))), top, units[u := StagesOf(c, u, i, total, s)], fifos[u := FifosOf(s)])
  }

  /** Shape of the states of a page's own network. */
  ghost predicate Inside(c: Config, u: nat, i: nat, s: State<PP.Local, N.Datum>) {
    && |s.local| == STAGES && |s.fifo| == N.CHANNELS && |PageOf(c, u, i)| == PAGE_SZ
    && s.local[0].Feeder? && s.local[0].k <= PAGE_SZ
  }

  lemma ItemsTail(v: N.Datum, q: seq<N.Datum>)
    ensures Items([v] + q) == [Item(v)] + Items(q)
    ensures Items(q + [v]) == Items(q) + [Item(v)]
  {
  }

  lemma InsideStays(c: Config, u: nat, i: nat, s: State<PP.Local, N.Datum>, p: nat)
    requires Inside(c, u, i, s) && Enabled(N.Network(Inner(c, u, i)), s, p)
    ensures Inside(c, u, i, Step(N.Network(Inner(c, u, i)), s, p))
    ensures Fed(Step(N.Network(Inner(c, u, i)), s, p)) == Fed(s) + (if p == N.FEEDER then 1 else 0)
  {
    hide K.Body, K.Count, K.Extracted, H.Concat, PP.HasToSend, PP.ParserGot, PP.NextField, PP.AdderGot, PP.Decode;
    hide N.HeaderNext;
  }

  lemma StagesStep(c: Config, u: nat, i: nat, total: int, s: State<PP.Local, N.Datum>, t: State<PP.Local, N.Datum>,
                   p: nat)
    requires |s.local| == |t.local| == STAGES && p < STAGES && t.local == s.local[p := t.local[p]]
    ensures StagesOf(c, u, i, total, t) == StagesOf(c, u, i, total, s)[p := InUnit(c, u, i, total, p, t.local[p])]
  {
    hide InUnit;
  }

  lemma FifosStep(s: State<PP.Local, N.Datum>, t: State<PP.Local, N.Datum>, ch: nat)
    requires |s.fifo| == |t.fifo| == N.CHANNELS && ch < N.CHANNELS && t.fifo == s.fifo[ch := t.fifo[ch]]
    ensures FifosOf(t) == FifosOf(s)[ch := Items(t.fifo[ch])]
  {
  }

  /** A stage that can act on its page acts the same in the whole, and comes to what it should. */
  lemma ActsInUnit(c: Config, u: nat, i: nat, total: int, p: nat, l: PP.Local)
    requires i < c.pagesPerPu && 0 < p < STAGES && N.Next(Inner(c, u, i), p, l) != Stop
    ensures var a := N.Next(Inner(c, u, i), p, l);
            && UnitNext(c, u, p, InUnit(c, u, i, total, p, l)) == Lift(u, a)
            && (a.Put? ==> UnitSent(c, u, p, InUnit(c, u, i, total, p, l)) == InUnit(c, u, i, total, p, N.Sent(l)))
  {
    hide K.Body, K.Count, K.Extracted, H.Concat, N.HeaderNext, N.ParserNext, N.Sent, PageOf, Chan, Int64;
  }

  lemma GetsInUnit(c: Config, u: nat, i: nat, total: int, p: nat, l: PP.Local, d: N.Datum)
    requires i < c.pagesPerPu && 0 < p < STAGES && N.Next(Inner(c, u, i), p, l) != Stop
    ensures UnitGot(c, u, p, InUnit(c, u, i, total, p, l), Item(d)) == InUnit(c, u, i, total, p, N.Got(p, l, d))
  {
    hide K.Body, K.Count, K.Extracted, H.Concat, N.HeaderNext, N.ParserNext, N.Got, PageOf, Int64;
  }

  /** A step of a stage on its page is a step of the whole. */
  lemma StageSteps(c: Config, S: State<Local, Datum>, u: nat, i: nat, total: int, top: Local, units: seq<seq<Local>>,
                   fifos: seq<seq<seq<Datum>>>, s: State<PP.Local, N.Datum>, p: nat)
    requires Sized(c, units, fifos) && u < c.numPu && i < c.pagesPerPu
    requires Inside(c, u, i, s) && Enabled(N.Network(Inner(c, u, i)), s, p) && p != N.FEEDER
    requires Reach(Network(c), S, Whole(c, u, i, total, top, units, fifos, s))
    ensures |Step(N.Network(Inner(c, u, i)), s, p).local| == STAGES
    ensures |Step(N.Network(Inner(c, u, i)), s, p).fifo| == N.CHANNELS
    ensures Reach(Network(c), S, Whole(c, u, i, total, top, units, fifos, Step(N.Network(Inner(c, u, i)), s, p)))
  {
    hide Build, InUnit, UnitNext, UnitGot, UnitSent, Chan, N.Next, N.Got, N.Sent, Network, ReaderAt, Added, After;
    var t, rd, a := Step(N.Network(Inner(c, u, i)), s, p), ReaderAt(c, i, u, WordsTaken(Fed(s))),
      N.Next(Inner(c, u, i), p, s.local[p]);
    var us, fs := units[u := StagesOf(c, u, i, total, s)], fifos[u := FifosOf(s)];
    InsideStays(c, u, i, s, p);
    InnerEnds(Inner(c, u, i), p, s.local[p]);
    ActsInUnit(c, u, i, total, p, s.local[p]);
    StagesStep(c, u, i, total, s, t, p);
    FifosStep(s, t, a.ch);
    match a
    case Get(ch) =>
      var v, rest := s.fifo[ch][0], s.fifo[ch][1..];
      assert s.fifo[ch] == [v] + rest;
      ItemsTail(v, rest);
      GetsInUnit(c, u, i, total, p, s.local[p], v);
      UnitTakes(c, S, rd, top, us, fs, u, p, ch, Item(v), Items(rest));
      SameUnits(units, u, StagesOf(c, u, i, total, s), p, UnitGot(c, u, p, us[u][p], Item(v)));
      SameUnits(fifos, u, FifosOf(s), ch, Items(rest));
    case Put(ch, v) =>
      ItemsTail(v, s.fifo[ch]);
      UnitGives(c, S, rd, top, us, fs, u, p, ch, Item(v));
      SameUnits(units, u, StagesOf(c, u, i, total, s), p, UnitSent(c, u, p, us[u][p]));
      SameUnits(fifos, u, FifosOf(s), ch, Items(s.fifo[ch]) + [Item(v)]);
  }

  lemma SameUnits<T>(rows: seq<seq<T>>, u: nat, row: seq<T>, k: nat, x: T)
    requires u < |rows| && k < |row|
    ensures rows[u := row][u := rows[u := row][u][k := x]] == rows[u := row[k := x]]
  {
  }

  // ----- feeding a page: the reader's words, byte by byte -----

  lemma WordOfPage(c: Config, i: nat, u: nat, j: nat)
    requires |PageOf(c, u, i)| == PAGE_SZ && j < F.WORDS_PER_PAGE
    ensures WordOf(c, i, u, j) == PageOf(c, u, i)[F.WORD_SZ * j..F.WORD_SZ * j + F.WORD_SZ]
  {
    hide Product;
    var k := Product(i, c.numPu) + u;
    SliceOfSlice(c.block, PAGE_SZ * k, PAGE_SZ, F.WORD_SZ * j, F.WORD_SZ);
  }

  lemma NextByte(page: seq<byte>, k: nat)
    requires |page| == PAGE_SZ && k < PAGE_SZ
    ensures k % F.WORD_SZ != 0 ==>
        RestOf(page, k) == [page[k]] + RestOf(page, k + 1) && WordsTaken(k + 1) == WordsTaken(k)
    ensures k % F.WORD_SZ == 0 ==> RestOf(page, k) == [] && WordsTaken(k + 1) == WordsTaken(k) + 1 == k / F.WORD_SZ + 1
    ensures k % F.WORD_SZ == 0 ==> page[k..k + F.WORD_SZ] == [page[k]] + RestOf(page, k + 1)
  {
    var q, r := k / F.WORD_SZ, k % F.WORD_SZ;
    assert k == F.WORD_SZ * q + r && q < F.WORDS_PER_PAGE;
    if r == 0 {
      assert (k + F.WORD_SZ - 1) / F.WORD_SZ == q && (k + F.WORD_SZ) / F.WORD_SZ == q + 1;
    } else {
      assert (k + F.WORD_SZ - 1) / F.WORD_SZ == q + 1 && (k + F.WORD_SZ) / F.WORD_SZ == q + 1;
    }
  }

  /** The converter's part of a feeding step: the next byte of the page goes to the header. */
  lemma ConverterGives(c: Config, S: State<Local, Datum>, rd: Local, top: Local, u: nat, i: nat, words: nat, b: byte,
                       rest: seq<byte>, units: seq<seq<Local>>, fifos: seq<seq<seq<Datum>>>)
    requires Sized(c, units, fifos) && u < c.numPu
    requires units[u][N.FEEDER] == Bytes(words, [b] + rest) && |fifos[u][N.IN]| < c.depth
    requires Reach(Network(c), S, Build(rd, top, units, fifos))
    ensures Reach(Network(c), S, Build(rd, top, units[u := units[u][N.FEEDER := Bytes(words, rest)]],
                                       fifos[u := fifos[u][N.IN := fifos[u][N.IN] + [Item(N.Byte(b))]]]))
  {
    hide Build, Chan, Network;
    assert ([b] + rest)[1..] == rest;
    UnitGives(c, S, rd, top, units, fifos, u, N.FEEDER, N.IN, Item(N.Byte(b)));
  }

  /** The reader deals a word to the unit, and the converter takes it. */
  lemma WordGoes(c: Config, S: State<Local, Datum>, i: nat, u: nat, j: nat, top: Local, words: nat,
                 units: seq<seq<Local>>, fifos: seq<seq<seq<Datum>>>)
    requires Sized(c, units, fifos) && u < c.numPu && i < c.pagesPerPu && c.depth > 0
    requires units[u][N.FEEDER] == Bytes(words, []) && words < F.WORDS_PER_PAGE * c.pagesPerPu && fifos[u][WORDS] == []
    requires Reach(Network(c), S, Build(Reader(i, u, j), top, units, fifos))
    ensures Reach(Network(c), S, Build(ReaderAt(c, i, u, j + 1), top,
                                       units[u := units[u][N.FEEDER := Bytes(words + 1, WordOf(c, i, u, j))]], fifos))
  {
    hide Build, Chan, Network, WordOf, ReaderAt;
    ReaderGives(c, S, i, u, j, top, units, fifos);
    var v := Word(WordOf(c, i, u, j));
    var fs := fifos[u := fifos[u][WORDS := fifos[u][WORDS] + [v]]];
    assert [] + [v] == [v] + [];
    UnitTakes(c, S, ReaderAt(c, i, u, j + 1), top, units, fs, u, N.FEEDER, WORDS, v, []);
    assert fs[u := fs[u][WORDS := []]] == fifos by {
      assert fs[u][WORDS := []] == fifos[u];
    }
  }

  /** A byte that the page's own feeder sends is one that reader and converter bring. */
  lemma FeederSteps(c: Config, S: State<Local, Datum>, u: nat, i: nat, total: int, top: Local, units: seq<seq<Local>>,
                    fifos: seq<seq<seq<Datum>>>, s: State<PP.Local, N.Datum>)
    requires Sized(c, units, fifos) && u < c.numPu && i < c.pagesPerPu && c.depth > 0
    requires Inside(c, u, i, s) && Enabled(N.Network(Inner(c, u, i)), s, N.FEEDER)
    requires Reach(Network(c), S, Whole(c, u, i, total, top, units, fifos, s))
    ensures |Step(N.Network(Inner(c, u, i)), s, N.FEEDER).local| == STAGES
    ensures |Step(N.Network(Inner(c, u, i)), s, N.FEEDER).fifo| == N.CHANNELS
    ensures Reach(Network(c), S, Whole(c, u, i, total, top, units, fifos, Step(N.Network(Inner(c, u, i)), s, N.FEEDER)))
  {
    hide Build, UnitNext, UnitGot, UnitSent, Chan, Network, Added, After, RestOf, WordsTaken, PageOf, WordOf, InUnit;
    var t, k, page := Step(N.Network(Inner(c, u, i)), s, N.FEEDER), Fed(s), PageOf(c, u, i);
    FeederInside(c, u, i, total, s, t);
    NextByte(page, k);
    var b, rest, words := page[k], RestOf(page, k + 1), F.WORDS_PER_PAGE * i + WordsTaken(k + 1);
    var ls, qs, rd := StagesOf(c, u, i, total, s), FifosOf(s), ReaderAt(c, i, u, WordsTaken(k + 1));
    var held := Bytes(words, [b] + rest);
    StagesStep(c, u, i, total, s, t, N.FEEDER);
    FifosStep(s, t, N.IN);
    ItemsTail(N.Byte(b), s.fifo[N.IN]);
    if k % F.WORD_SZ == 0 {
      WordsLeft(c, i, k);
      WordOfPage(c, i, u, k / F.WORD_SZ);
      assert F.WORD_SZ * (k / F.WORD_SZ) == k;
      WordGoes(c, S, i, u, k / F.WORD_SZ, top, words - 1, units[u := ls], fifos[u := qs]);
      SameUnits(units, u, ls, N.FEEDER, held);
    } else {
      assert ls[N.FEEDER := held] == ls;
    }
    ConverterGives(c, S, rd, top, u, i, words, b, rest, units[u := ls[N.FEEDER := held]], fifos[u := qs]);
    SameUnits(units, u, ls[N.FEEDER := held], N.FEEDER, Bytes(words, rest));
    SameUnits(fifos, u, qs, N.IN, qs[N.IN] + [Item(N.Byte(b))]);
    assert t.local[N.FEEDER] == PP.Feeder(k + 1);
    assert ls[N.FEEDER := held][N.FEEDER := Bytes(words, rest)] == StagesOf(c, u, i, total, t);
    assert qs[N.IN := qs[N.IN] + [Item(N.Byte(b))]] == FifosOf(t);
  }

  /** What the page's own feeder does in a step, and what that is in the unit. */
  lemma FeederInside(c: Config, u: nat, i: nat, total: int, s: State<PP.Local, N.Datum>, t: State<PP.Local, N.Datum>)
    requires Inside(c, u, i, s) && Enabled(N.Network(Inner(c, u, i)), s, N.FEEDER)
    requires t == Step(N.Network(Inner(c, u, i)), s, N.FEEDER)
    ensures var k, page := Fed(s), PageOf(c, u, i);
            && k < PAGE_SZ && Fed(t) == k + 1 && |s.fifo[N.IN]| < c.depth
            && t.local == s.local[N.FEEDER := PP.Feeder(k + 1)]
              && t.fifo == s.fifo[N.IN := s.fifo[N.IN] + [N.Byte(page[k])]]
            && InUnit(c, u, i, total, N.FEEDER, s.local[0])
              == Bytes(F.WORDS_PER_PAGE * i + WordsTaken(k), RestOf(page, k))
            && InUnit(c, u, i, total, N.FEEDER, PP.Feeder(k + 1))
              == Bytes(F.WORDS_PER_PAGE * i + WordsTaken(k + 1), RestOf(page, k + 1))
  {
    hide RestOf, WordsTaken, PageOf;
  }

  /** At a word's first byte, reader and converter have words left. */
  lemma WordsLeft(c: Config, i: nat, k: nat)
    requires i < c.pagesPerPu && k < PAGE_SZ && k % F.WORD_SZ == 0
    ensures WordsTaken(k) == k / F.WORD_SZ < F.WORDS_PER_PAGE
    ensures F.WORDS_PER_PAGE * i + WordsTaken(k) < F.WORDS_PER_PAGE * c.pagesPerPu
    ensures forall u :: ReaderAt(c, i, u, WordsTaken(k)) == Reader(i, u, k / F.WORD_SZ)
  {
    assert (k + F.WORD_SZ - 1) / F.WORD_SZ == k / F.WORD_SZ;
  }

  /** Every run of a page's own network is a run of the whole. */
  lemma {:induction false} RunInside(c: Config, S: State<Local, Datum>, u: nat, i: nat, total: int, top: Local,
                                     units: seq<seq<Local>>, fifos: seq<seq<seq<Datum>>>, s: State<PP.Local, N.Datum>,
                                     n: nat, t: State<PP.Local, N.Datum>)
    requires Sized(c, units, fifos) && u < c.numPu && i < c.pagesPerPu && c.depth > 0
    requires Inside(c, u, i, s) && R.Reaches(AsSystem(N.Network(Inner(c, u, i))), s, n, t)
    requires Reach(Network(c), S, Whole(c, u, i, total, top, units, fifos, s))
    ensures Inside(c, u, i, t) && Reach(Network(c), S, Whole(c, u, i, total, top, units, fifos, t))
    decreases n
  {
    hide Whole, Network, N.Network, Inner, Enabled, Step, PageOf;
    if n > 0 {
      var sys := AsSystem(N.Network(Inner(c, u, i)));
      var p: nat :| sys.enabled(s, p) && R.Reaches(sys, sys.step(s, p), n - 1, t);
      InsideStays(c, u, i, s, p);
      if p == N.FEEDER {
        FeederSteps(c, S, u, i, total, top, units, fifos, s);
      } else {
        StageSteps(c, S, u, i, total, top, units, fifos, s, p);
      }
      RunInside(c, S, u, i, total, top, units, fifos, Step(N.Network(Inner(c, u, i)), s, p), n - 1, t);
    }
  }

  // ----- page after page -----

  /** What a unit adds up over its first k pages. */
  function SumOver(c: Config, u: nat, k: nat): int {
    Int64(F.UnitSum(c.native, c.block, c.numPu, u, k))
  }

  /** Unit u with its first k pages done. */
  function UnitAt(c: Config, u: nat, k: nat): (ls: seq<Local>)
    ensures |ls| == STAGES
  {
    [Bytes(F.WORDS_PER_PAGE * k, []),
     if k < c.pagesPerPu then Stage(k, PP.Header([], 0)) else AwaitToken(k),
     Stage(k, PP.AwaitCount), AddUp(k, SumOver(c, u, k), PP.AwaitCount),
     Stage(k, PP.AwaitCount), Stage(k, PP.AwaitCount), Stage(k, PP.AwaitCount), Stage(k, PP.AwaitCount)]
  }

  function NoItems(n: nat): (fifos: seq<seq<seq<Datum>>>)
    ensures |fifos| == n && Rectangular(fifos, CHANNELS)
    ensures forall u, ch :: 0 <= u < n && 0 <= ch < CHANNELS ==> fifos[u][ch] == []
  {
    seq(n, _ => seq(CHANNELS, _ => []))
  }

  /** In round i, the units below u have done their page. */
  function UnitsAt(c: Config, i: nat, u: nat): (units: seq<seq<Local>>)
    ensures |units| == c.numPu && Rectangular(units, STAGES)
    ensures forall v: nat :: v < c.numPu ==> units[v] == UnitAt(c, v, if v < u then i + 1 else i)
  {
    var units := seq(c.numPu, v requires 0 <= v => UnitAt(c, v, if v < u then i + 1 else i));
    assert forall v: nat :: v < c.numPu ==> |units[v]| == |UnitAt(c, v, if v < u then i + 1 else i)|;
    units
  }

  function Mid(c: Config, i: nat, u: nat): State<Local, Datum> {
    Build(if u < c.numPu then Reader(i, u, 0) else Reader(i + 1, 0, 0), Total(0, 0), UnitsAt(c, i, u), NoItems(c.numPu))
  }

  /** The block can be processed, every FIFO can hold something, and every dataStream a page's tuple bytes. */
  ghost predicate Usable(c: Config) {
    && c.numPu > 0 && c.pagesPerPu > 0 && c.depth > 0 && c.dataDepth > 0
    && F.BlockOk(c.native, c.block, Product(c.pagesPerPu, c.numPu))
    && forall u: nat, i: nat :: u < c.numPu && i < c.pagesPerPu ==> Roomy(c, u, i)
  }

  ghost predicate Roomy(c: Config, u: nat, i: nat) {
    N.Early(c.native, PageOf(c, u, i)) <= c.dataDepth
  }

  lemma PageUsable(c: Config, u: nat, i: nat)
    requires Usable(c) && u < c.numPu && i < c.pagesPerPu
    ensures N.Usable(Inner(c, u, i)) && |PageOf(c, u, i)| == PAGE_SZ
        && N.Early(c.native, PageOf(c, u, i)) <= c.dataDepth
  {
    hide K.PageOk, F.BlockOk, N.Early;
    F.UnitPageOk(c.native, c.block, c.numPu, u, i, c.pagesPerPu);
    assert Roomy(c, u, i);
    F.PageOkLen(c.native, PageOf(c, u, i));
  }

  /** A unit about to begin page i is the page's own network in its initial state. */
  lemma BeginsPage(c: Config, u: nat, i: nat)
    requires i < c.pagesPerPu
    ensures var s := N.Initial(Inner(c, u, i));
            && |s.local| == STAGES && |s.fifo| == N.CHANNELS && Fed(s) == 0
            && StagesOf(c, u, i, SumOver(c, u, i), s) == UnitAt(c, u, i) && FifosOf(s) == seq(CHANNELS, _ => [])
  {
    hide SumOver, K.Body, K.Count, PageOf;
    var s := N.Initial(Inner(c, u, i));
    assert RestOf(PageOf(c, u, i), 0) == [];
    assert WordsTaken(0) == 0;
    assert StagesOf(c, u, i, SumOver(c, u, i), s) == UnitAt(c, u, i);
  }

  /** Unit u when all stages are done with page i, but for the aggregator's leave to begin the next. */
  function PageDone(c: Config, u: nat, i: nat): (ls: seq<Local>)
    ensures |ls| == STAGES
  {
    var s := PP.Done(Int64(K.PageSum(c.native, PageOf(c, u, i))));
    [Bytes(F.WORDS_PER_PAGE * i + F.WORDS_PER_PAGE, []), AwaitToken(i + 1),
     Stage(i + 1, PP.AwaitCount), Added(c, i, SumOver(c, u, i), s),
     Stage(i + 1, PP.AwaitCount), Stage(i + 1, PP.AwaitCount), Stage(i + 1, PP.AwaitCount), Stage(i + 1, PP.AwaitCount)]
  }

  lemma EndsPage(c: Config, u: nat, i: nat)
    requires |PageOf(c, u, i)| == PAGE_SZ && N.Usable(Inner(c, u, i)) && i < c.pagesPerPu
    ensures var s := N.Final(Inner(c, u, i));
            && |s.local| == STAGES && |s.fifo| == N.CHANNELS && WordsTaken(Fed(s)) == F.WORDS_PER_PAGE
            && StagesOf(c, u, i, SumOver(c, u, i), s) == PageDone(c, u, i) && FifosOf(s) == seq(CHANNELS, _ => [])
  {
    hide SumOver, K.Body, K.Count, K.PageSum, K.PageOk, PageOf, Int64, N.Early;
    var ic := Inner(c, u, i);
    var s := N.Final(ic);
    HeaderEnds(ic);
    assert RestOf(PageOf(c, u, i), PAGE_SZ) == [];
    assert WordsTaken(PAGE_SZ) == F.WORDS_PER_PAGE;
    assert StagesOf(c, u, i, SumOver(c, u, i), s) == PageDone(c, u, i);
  }

  lemma HeaderEnds(c: N.Config)
    requires N.Usable(c)
    ensures N.Next(c, N.HEADER, PP.Header(c.page, |K.Body(c.native, c.page)| + 6)) == Stop
  {
    hide K.PageSum, N.Send;
    N.FinalBlocked(c);
    var t := N.Final(c);
    assert t.local[N.HEADER] == PP.Header(c.page, |K.Body(c.native, c.page)| + 6);
    hide K.Body, K.PageOk;
    HeaderSends(c.native, c.page);
  }

  lemma HeaderSends(native: bool, page: seq<byte>)
    requires K.PageOk(native, page)
    ensures N.HeaderNext(native, page, |K.Body(native, page)| + 6) == Stop
  {
    hide Lineitem.RowsOk, H.PageReadable, K.Extracted;
    N.EarlyFits(native, page);
  }

  lemma SumGrows(c: Config, u: nat, i: nat)
    ensures SumOver(c, u, i + 1) == Int64(SumOver(c, u, i) + Int64(K.PageSum(c.native, PageOf(c, u, i))))
  {
    hide K.PageSum, Int64, F.UnitSum;
    F.UnitSumStep(c.native, c.block, c.numPu, u, i);
    F.SumWraps(F.UnitSum(c.native, c.block, c.numPu, u, i), K.PageSum(c.native, PageOf(c, u, i)));
  }

  lemma NoneChanged(n: nat, u: nat)
    requires u < n
    ensures NoItems(n)[u := seq(CHANNELS, _ => [])] == NoItems(n)
  {
    var fifos := NoItems(n);
    assert fifos[u] == seq(CHANNELS, _ => []);
  }

  /** The aggregator gives the header leave to begin the next page. */
  lemma TokenPasses(c: Config, S: State<Local, Datum>, rd: Local, top: Local, u: nat, i: nat, units: seq<seq<Local>>)
    requires |units| == c.numPu && Rectangular(units, STAGES) && u < c.numPu && i + 1 < c.pagesPerPu && c.depth > 0
    requires Reach(Network(c), S, Build(rd, top, units[u := PageDone(c, u, i)], NoItems(c.numPu)))
    ensures Reach(Network(c), S, Build(rd, top, units[u := UnitAt(c, u, i + 1)], NoItems(c.numPu)))
  {
    hide Build, Chan, Network, SumOver, K.PageSum, Int64, PageOf;
    var fifos, done, next := NoItems(c.numPu), PageDone(c, u, i), UnitAt(c, u, i + 1);
    var us := units[u := done];
    SumGrows(c, u, i);
    UnitGives(c, S, rd, top, us, fifos, u, N.ADDER, TOKEN, Token);
    var vs, fs := us[u := us[u][N.ADDER := next[N.ADDER]]], fifos[u := fifos[u][TOKEN := fifos[u][TOKEN] + [Token]]];
    assert [] + [Token] == [Token] + [];
    UnitTakes(c, S, rd, top, vs, fs, u, N.HEADER, TOKEN, Token, []);
    assert fs[u := fs[u][TOKEN := []]] == fifos by {
      assert fs[u][TOKEN := []] == fifos[u];
    }
    assert vs[u := vs[u][N.HEADER := next[N.HEADER]]] == units[u := next] by {
      assert done[N.ADDER := next[N.ADDER]][N.HEADER := next[N.HEADER]] == next;
    }
  }

  /** Page i of unit u goes through, with every FIFO empty before and after. */
  lemma OnePage(c: Config, S: State<Local, Datum>, i: nat, u: nat)
    requires Usable(c) && u < c.numPu && i < c.pagesPerPu && Reach(Network(c), S, Mid(c, i, u))
    ensures Reach(Network(c), S, Mid(c, i, u + 1))
  {
    hide Build, Network, StagesOf, FifosOf, UnitAt, PageDone, F.BlockOk, N.Usable, N.Early, SumOver;
    var ic, units, fifos, top := Inner(c, u, i), UnitsAt(c, i, u), NoItems(c.numPu), Total(0, 0);
    PageUsable(c, u, i);
    BeginsPage(c, u, i);
    EndsPage(c, u, i);
    NoneChanged(c.numPu, u);
    assert units[u := UnitAt(c, u, i)] == units;
    N.FinalReached(ic);
    var n: nat :| R.Reaches(AsSystem(N.Network(ic)), N.Initial(ic), n, N.Final(ic));
    RunInside(c, S, u, i, SumOver(c, u, i), top, units, fifos, N.Initial(ic), n, N.Final(ic));
    var rd := ReaderAt(c, i, u, F.WORDS_PER_PAGE);
    assert Reach(Network(c), S, Build(rd, top, units[u := PageDone(c, u, i)], fifos));
    if i + 1 < c.pagesPerPu {
      TokenPasses(c, S, rd, top, u, i, units);
    } else {
      LastPageDone(c, u, i);
    }
    assert units[u := UnitAt(c, u, i + 1)] == UnitsAt(c, i, u + 1);
  }

  lemma LastPageDone(c: Config, u: nat, i: nat)
    requires i + 1 >= c.pagesPerPu
    ensures PageDone(c, u, i) == UnitAt(c, u, i + 1)
  {
    hide SumOver, K.PageSum, Int64;
    SumGrows(c, u, i);
  }

  lemma NextRound(c: Config, i: nat)
    requires c.numPu > 0
    ensures Mid(c, i, c.numPu) == Mid(c, i + 1, 0)
  {
    hide UnitAt;
    assert UnitsAt(c, i, c.numPu) == UnitsAt(c, i + 1, 0);
  }

  lemma {:induction false} RoundDone(c: Config, S: State<Local, Datum>, i: nat, u: nat)
    requires Usable(c) && u <= c.numPu && i < c.pagesPerPu && Reach(Network(c), S, Mid(c, i, 0))
    ensures Reach(Network(c), S, Mid(c, i, u))
  {
    hide Usable, Network, Mid;
    if u > 0 {
      RoundDone(c, S, i, u - 1);
      OnePage(c, S, i, u - 1);
    }
  }

  lemma {:induction false} RoundsDone(c: Config, i: nat)
    requires Usable(c) && i <= c.pagesPerPu
    ensures Reach(Network(c), Initial(c), Mid(c, i, 0))
  {
    hide Network, Mid, F.BlockOk;
    if i == 0 {
      Start(Network(c), Initial(c));
    } else {
      RoundsDone(c, i - 1);
      RoundDone(c, Initial(c), i - 1, c.numPu);
      NextRound(c, i - 1);
    }
  }

  /** Every process at the top of its loops, every FIFO empty. */
  function Initial(c: Config): State<Local, Datum> {
    Mid(c, 0, 0)
  }

  // ----- the units' sums -----

  function Handed(c: Config, v: nat): (ls: seq<Local>)
    ensures |ls| == STAGES
  {
    UnitAt(c, v, c.pagesPerPu)[N.ADDER := Ended]
  }

  /** All pages done, the sums of the units below u handed over. */
  function UnitsHanded(c: Config, u: nat): (units: seq<seq<Local>>)
    ensures |units| == c.numPu && Rectangular(units, STAGES)
    ensures forall v: nat :: v < c.numPu ==> units[v] == if v < u then Handed(c, v) else UnitAt(c, v, c.pagesPerPu)
  {
    var units := seq(c.numPu, v requires 0 <= v => if v < u then Handed(c, v) else UnitAt(c, v, c.pagesPerPu));
    assert forall v: nat :: v < c.numPu ==> |units[v]| == |Handed(c, v)|;
    units
  }

  function Collected(c: Config, u: nat): State<Local, Datum> {
    Build(Reader(c.pagesPerPu, 0, 0), Total(u, Int64(F.UnitsSum(c.native, c.block, c.numPu, u, c.pagesPerPu))),
          UnitsHanded(c, u), NoItems(c.numPu))
  }

  /** The end: the final adder has the block's sum, and nothing is left anywhere. */
  function Final(c: Config): State<Local, Datum> {
    Collected(c, c.numPu)
  }

  lemma OneSum(c: Config, S: State<Local, Datum>, u: nat)
    requires Usable(c) && u < c.numPu && Reach(Network(c), S, Collected(c, u))
    ensures Reach(Network(c), S, Collected(c, u + 1))
  {
    hide Build, Chan, Network, UnitAt, F.BlockOk, F.UnitSum, Int64, F.UnitsSum;
    var m, fifos, units := c.pagesPerPu, NoItems(c.numPu), UnitsHanded(c, u);
    var rd, x, sum := Reader(m, 0, 0), SumOver(c, u, m), F.UnitsSum(c.native, c.block, c.numPu, u, m);
    AdderHands(c, u);
    UnitGives(c, S, rd, Total(u, Int64(sum)), units, fifos, u, N.ADDER, SUM, Sum(x));
    var vs, fs := units[u := units[u][N.ADDER := Ended]], fifos[u := fifos[u][SUM := fifos[u][SUM] + [Sum(x)]]];
    assert [] + [Sum(x)] == [Sum(x)] + [];
    TopTakes(c, S, rd, u, Int64(sum), vs, fs, x, []);
    assert fs[u := fs[u][SUM := []]] == fifos by {
      assert fs[u][SUM := []] == fifos[u];
    }
    assert vs == UnitsHanded(c, u + 1);
    F.SumWraps(sum, F.UnitSum(c.native, c.block, c.numPu, u, m));
    UnitsSumStep(c, u);
  }

  lemma UnitsSumStep(c: Config, u: nat)
    ensures F.UnitsSum(c.native, c.block, c.numPu, u + 1, c.pagesPerPu)
         == F.UnitsSum(c.native, c.block, c.numPu, u, c.pagesPerPu) + F.UnitSum(c.native, c.block, c.numPu, u,
           c.pagesPerPu)
  {
    hide F.UnitSum;
  }

  lemma AdderHands(c: Config, u: nat)
    ensures var l := UnitAt(c, u, c.pagesPerPu)[N.ADDER];
            && UnitNext(c, u, N.ADDER, l) == Put(Chan(u, SUM), Sum(SumOver(c, u, c.pagesPerPu)))
            && UnitSent(c, u, N.ADDER, l) == Ended
  {
    hide SumOver, Chan;
  }

  lemma {:induction false} Sums(c: Config, u: nat)
    requires Usable(c) && u <= c.numPu
    ensures Reach(Network(c), Initial(c), Collected(c, u))
  {
    hide Usable, Network, Collected, Initial, Mid;
    SomeUnits(c);
    if u == 0 {
      RoundsDone(c, c.pagesPerPu);
      NoneCollected(c);
    } else {
      Sums(c, u - 1);
      OneSum(c, Initial(c), u - 1);
    }
  }

  lemma SomeUnits(c: Config)
    requires Usable(c)
    ensures c.numPu > 0
  {
  }

  lemma NoneCollected(c: Config)
    requires c.numPu > 0
    ensures Mid(c, c.pagesPerPu, 0) == Collected(c, 0)
  {
    hide UnitAt, Build;
    NothingSummed(c);
    assert UnitsHanded(c, 0) == UnitsAt(c, c.pagesPerPu, 0);
  }

  lemma NothingSummed(c: Config)
    ensures Int64(F.UnitsSum(c.native, c.block, c.numPu, 0, c.pagesPerPu)) == 0
  {
    hide Int64;
    Int64Exact(0);
  }

  lemma UnitStops(c: Config, u: nat, p: nat)
    requires p < STAGES
    ensures UnitNext(c, u, p, Handed(c, u)[p]) == Stop
  {
    hide SumOver;
  }

  lemma FinalBlocked(c: Config)
    requires Usable(c)
    ensures Blocked(Network(c), Final(c))
  {
    hide UnitNext, Handed, UnitAt, F.BlockOk, Int64, Flat, F.UnitsSum;
    var t, units := Final(c), UnitsHanded(c, c.numPu);
    FlatLength(units, STAGES);
    forall p: nat | p < |t.local|
      ensures Next(c, p, t.local[p]) == Stop
    {
      if p >= 2 {
        var u, k := (p - 2) / STAGES, (p - 2) % STAGES;
        UnitBelow(c.numPu, p);
        ProcBack(p);
        StageAt(t.local[0], t.local[1], units, u, k, Ended);
        UnitStops(c, u, k);
      }
    }
  }

  lemma UnitBelow(n: nat, p: nat)
    requires 2 <= p < 2 + Product(n, STAGES)
    ensures (p - 2) / STAGES < n
  {
    ProductIs(n, STAGES);
  }

  // ----- the theorems -----

  /**
    The whole kernel on one block, any unit count, any FIFO depths from 1 on with room for the tuple bytes
    in the dataStreams: whatever the scheduler has done so far, it can finish; and it is stuck exactly
    when every FIFO is empty and the final adder has the sum over the block's pages in block order.
  */
  lemma EveryScheduleSums(c: Config, u: State<Local, Datum>)
    requires Usable(c) && Reach(Network(c), Initial(c), u)
    ensures Always(Network(c), Initial(c), Final(c)) && Reach(Network(c), u, Final(c))
    ensures Blocked(Network(c), u) <==> u == Final(c)
    ensures Final(c).local[TOP] == Total(c.numPu, Int64(F.BlockSum(c.native, c.block, Product(c.pagesPerPu, c.numPu))))
    ensures forall ch :: 0 <= ch < |Final(c).fifo| ==> Final(c).fifo[ch] == []
  {
    hide F.BlockOk, F.BlockSum, Int64, Network, UnitsHanded, Flat;
    Sums(c, c.numPu);
    FinalBlocked(c);
    NetworkDisciplined(c);
    OneScheduleSuffices(Network(c), Initial(c), Final(c));
    AlwaysMeans(Network(c), Initial(c), Final(c), u);
    F.UnitsAddUp(c.native, c.block, c.numPu, c.pagesPerPu);
    NoItemsLeft(c.numPu);
  }

  lemma {:induction false} NoItemsLeft(n: nat)
    ensures forall ch :: 0 <= ch < |Flat(NoItems(n))| ==> Flat(NoItems(n))[ch] == []
  {
    if n > 0 {
      NoItemsLeft(n - 1);
      assert NoItems(n)[..n - 1] == NoItems(n - 1);
    }
  }

  /** The peer-to-peer kernel's declared depth of 8192, and for repacked pages any depth, leaves room. */
  lemma DepthsSuffice(c: Config)
    requires c.numPu > 0 && c.pagesPerPu > 0 && c.depth > 0 && c.dataDepth > 0 && (c.native ==> c.dataDepth >= 8192)
    requires F.BlockOk(c.native, c.block, Product(c.pagesPerPu, c.numPu))
    ensures Usable(c)
  {
    hide F.BlockOk, K.PageOk, N.Early, Product;
    forall u: nat, i: nat | u < c.numPu && i < c.pagesPerPu
      ensures Roomy(c, u, i)
    {
      F.UnitPageOk(c.native, c.block, c.numPu, u, i, c.pagesPerPu);
      N.EarlyIsLess(c.native, PageOf(c, u, i));
    }
  }
}
