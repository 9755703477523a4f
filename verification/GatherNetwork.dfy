/**
  The gather kernel as a network of concurrent processes: burst reader, work distributor, one worker
  per stream, collector and burst writer, joined by FIFOs of any depth from 1 on. Shown for every
  schedule: nothing blocks before all output is written, and the output is the gathered rows.
*/
module GatherNetwork {
  import opened Machine
  import opened Interleave
  import opened Kahn

  /**
    Entries per input and output burst, streams in use out of `maxStream`, entries per stream, number
    of output bursts, FIFO depth, the input bursts, the stream that position j of burst b is dealt to
    and collected from, and the two words of the table row at an index.
  */
  datatype Config = Config(
    kIn: nat, kOut: nat, stream: nat, maxStream: nat, perStream: nat, outBursts: nat, depth: nat,
    input: seq<seq<int>>, laneIn: (nat, nat) -> nat, laneOut: (nat, nat) -> nat, measure: int -> int, group: int -> int)

  predicate Usable(c: Config) {
    c.kIn > 0 && c.kOut > 0 && 0 < c.stream <= c.maxStream && c.depth > 0
  }

  ghost predicate Valid(c: Config) {
    && Usable(c)
    && Total(c) == c.perStream * c.stream
    && Total(c) == c.outBursts * c.kOut
    && (forall e: nat :: c.laneIn(e / c.kIn, e % c.kIn) == e % c.stream == c.laneOut(e / c.kOut, e % c.kOut))
    && forall b :: 0 <= b < |c.input| ==> |c.input[b]| == c.kIn
  }

  function Total(c: Config): nat {
    |c.input| * c.kIn
  }

  /** Entry e of the input block. */
  function Entry(c: Config, e: nat): int {
    if c.kIn > 0 && e / c.kIn < |c.input| && e % c.kIn < |c.input[e / c.kIn]| then c.input[e / c.kIn][e % c.kIn] else 0
  }

  datatype Datum = Word(x: int) | Burst(xs: seq<int>)

  /** The local state of each process: its place in its loops and the values it holds. */
  datatype Local =
    | Reader(b: nat)
    | Fetch(b: nat)
    | Deal(b: nat, j: nat, burst: seq<int>)
    | Wait(i: nat)
    | SendMeasure(i: nat, addr: int)
    | SendGroup(i: nat, addr: int)
    | TakeMeasure(b: nat, j: nat, dout: seq<int>)
    | TakeGroup(b: nat, j: nat, dout: seq<int>)
    | SendBurst(b: nat, dout: seq<int>)
    | Writer(out: seq<seq<int>>)
    | Idle

  const READER: nat := 0
  const DISTRIBUTOR: nat := 1
  const COLLECTOR: nat := 2
  const WRITER: nat := 3
  const WORKERS: nat := 4

  const INBURST: nat := 0
  const OUTBURST: nat := 1

  function DIn(w: nat): nat { 2 + 3 * w }
  function DMeasure(w: nat): nat { 3 + 3 * w }
  function DGroup(w: nat): nat { 4 + 3 * w }

  function ReaderOf(ch: nat): nat {
    if ch == INBURST then DISTRIBUTOR else if ch == OUTBURST then WRITER
    else if ch % 3 == 2 then WORKERS + (ch - 2) / 3 else COLLECTOR
  }

  function WriterOf(ch: nat): nat {
    if ch == INBURST then READER else if ch == OUTBURST then COLLECTOR
    else if ch % 3 == 2 then DISTRIBUTOR else WORKERS + (ch - 2) / 3
  }

  function Next(c: Config, p: nat, l: Local): Act<Datum>
  {
    match l
    case Reader(b) => if p == READER && b < |c.input| then Put(INBURST, Burst(c.input[b])) else Stop
    case Fetch(b) => if p == DISTRIBUTOR && b < |c.input| then Get(INBURST) else Stop
    case Deal(b, j, burst) =>
      if p == DISTRIBUTOR && j < |burst| then Put(DIn(c.laneIn(b, j)), Word(burst[j])) else Stop
    case Wait(i) => if p >= WORKERS && i < c.perStream then Get(DIn(p - WORKERS)) else Stop
    case SendMeasure(i, addr) => if p >= WORKERS then Put(DMeasure(p - WORKERS), Word(c.measure(addr))) else Stop
    case SendGroup(i, addr) => if p >= WORKERS then Put(DGroup(p - WORKERS), Word(c.group(addr))) else Stop
    case TakeMeasure(b, j, dout) =>
      if p == COLLECTOR && b < c.outBursts then Get(DMeasure(c.laneOut(b, j))) else Stop
    case TakeGroup(b, j, dout) => if p == COLLECTOR then Get(DGroup(c.laneOut(b, j))) else Stop
    case SendBurst(b, dout) => if p == COLLECTOR then Put(OUTBURST, Burst(dout)) else Stop
    case Writer(out) => if p == WRITER && |out| < c.outBursts then Get(OUTBURST) else Stop
    case Idle => Stop
  }

  function Got(c: Config, l: Local, v: Datum): Local {
    match (l, v)
    case (Fetch(b), Burst(xs)) => Deal(b, 0, xs)
    case (Wait(i), Word(addr)) => SendMeasure(i, addr)
    case (TakeMeasure(b, j, dout), Word(x)) => TakeGroup(b, j, dout + [x])
    case (TakeGroup(b, j, dout), Word(x)) =>
      if j + 1 == c.kOut then SendBurst(b, dout + [x]) else TakeMeasure(b, j + 1, dout + [x])
    case (Writer(out), Burst(xs)) => Writer(out + [xs])
    case _ => Idle
  }

  function Sent(c: Config, l: Local): Local {
    match l
    case Reader(b) => Reader(b + 1)
    case Deal(b, j, burst) => if j + 1 == |burst| then Fetch(b + 1) else Deal(b, j + 1, burst)
    case SendMeasure(i, addr) => SendGroup(i, addr)
    case SendGroup(i, _) => Wait(i + 1)
    case SendBurst(b, dout) => TakeMeasure(b + 1, 0, [])
    case _ => Idle
  }

  function Network(c: Config): Net<Local, Datum>
  {
    Net((p, l) => Next(c, p, l), (p, l, v) => Got(c, l, v), (p, l) => Sent(c, l), ch => c.depth, ReaderOf, WriterOf)
  }

  function Channels(c: Config): nat {
    2 + 3 * c.maxStream
  }

  function Empty(n: nat): (q: seq<seq<Datum>>)
    ensures |q| == n && forall i :: 0 <= i < n ==> q[i] == []
  {
    seq(n, i => [])
  }

  /** Worker w idles when it is beyond the streams selected by the opmode. */
  function WorkerAt(c: Config, w: nat, e: nat): Local
    requires c.stream > 0
  {
    if w < c.stream then Wait(Share(c.stream, w, e)) else Idle
  }

  /** The output words of entries from..until. */
  function Words(c: Config, from: nat, until: nat): (ws: seq<int>)
    ensures from <= until ==> |ws| == 2 * (until - from)
    decreases until
  {
    if until <= from then []
    else Words(c, from, until - 1) + [c.measure(Entry(c, until - 1)), c.group(Entry(c, until - 1))]
  }

  function OutBursts(c: Config, n: nat): (out: seq<seq<int>>)
    ensures |out| == n
  {
    seq(n, b requires 0 <= b < n => Words(c, b * c.kOut, b * c.kOut + c.kOut))
  }

  /** All FIFOs empty, the processes in the given local states. */
  function Still(c: Config, rd: Local, ds: Local, co: Local, wr: Local, ws: seq<Local>): State<Local, Datum> {
    State([rd, ds, co, wr] + ws, Empty(Channels(c)))
  }

  function ReaderAt(c: Config, e: nat): Local
    requires c.kIn > 0
  {
    if e % c.kIn == 0 then Reader(e / c.kIn) else Reader(e / c.kIn + 1)
  }

  function DistributorAt(c: Config, e: nat): Local
    requires c.kIn > 0
  {
    var b := e / c.kIn;
    if e % c.kIn == 0 || b >= |c.input| then Fetch(b) else Deal(b, e % c.kIn, c.input[b])
  }

  function CollectorAt(c: Config, e: nat): Local
    requires c.kOut > 0
  {
    TakeMeasure(e / c.kOut, e % c.kOut, Words(c, e - e % c.kOut, e))
  }

  function WorkersAt(c: Config, e: nat): (ws: seq<Local>)
    requires c.stream > 0
    ensures |ws| == c.maxStream && forall w :: 0 <= w < c.maxStream ==> ws[w] == WorkerAt(c, w, e)
  {
    seq(c.maxStream, w requires 0 <= w < c.maxStream => WorkerAt(c, w, e))
  }

  /** The state in which exactly the first e entries have gone all the way through. */
  function Through(c: Config, e: nat): State<Local, Datum>
    requires c.kIn > 0 && c.kOut > 0 && c.stream > 0
  {
    Still(c, ReaderAt(c, e), DistributorAt(c, e), CollectorAt(c, e), Writer(OutBursts(c, e / c.kOut)), WorkersAt(c, e))
  }

  lemma ChannelEnds(w: nat)
    ensures ReaderOf(DIn(w)) == WORKERS + w && WriterOf(DIn(w)) == DISTRIBUTOR
    ensures ReaderOf(DMeasure(w)) == COLLECTOR && WriterOf(DMeasure(w)) == WORKERS + w
    ensures ReaderOf(DGroup(w)) == COLLECTOR && WriterOf(DGroup(w)) == WORKERS + w
  {
  }

  lemma NetworkDisciplined(c: Config)
    ensures Disciplined(Network(c))
  {
    forall p: nat, l: Local
      ensures Next(c, p, l).Get? ==> ReaderOf(Next(c, p, l).ch) == p
      ensures Next(c, p, l).Put? ==> WriterOf(Next(c, p, l).ch) == p
    {
      if l.Deal? {
        ChannelEnds(c.laneIn(l.b, l.j));
      } else if l.TakeMeasure? || l.TakeGroup? {
        ChannelEnds(c.laneOut(l.b, l.j));
      } else if p >= WORKERS {
        ChannelEnds(p - WORKERS);
      }
    }
  }

  lemma FetchOne(c: Config, s: State<Local, Datum>, b: nat, co: Local, wr: Local, ws: seq<Local>)
    requires Usable(c) && b < |c.input|
    requires Reach(Network(c), s, Still(c, Reader(b), Fetch(b), co, wr, ws))
    ensures Reach(Network(c), s, Still(c, Reader(b + 1), Deal(b, 0, c.input[b]), co, wr, ws))
  {
    var t := Still(c, Reader(b), Fetch(b), co, wr, ws);
    var u := Hands(Network(c), s, t, READER, DISTRIBUTOR, INBURST, Burst(c.input[b]));
    assert u == Still(c, Reader(b + 1), Deal(b, 0, c.input[b]), co, wr, ws);
  }

  lemma DealOne(c: Config, s: State<Local, Datum>, rd: Local, ds: Local, co: Local, wr: Local, ws: seq<Local>, w: nat)
    requires Usable(c) && w < c.stream && |ws| == c.maxStream
    requires ds.Deal? && ds.j < |ds.burst| && c.laneIn(ds.b, ds.j) == w
    requires ws[w].Wait? && ws[w].i < c.perStream
    requires Reach(Network(c), s, Still(c, rd, ds, co, wr, ws))
    ensures Reach(Network(c), s, Still(c, rd, Sent(c, ds), co, wr, ws[w := SendMeasure(ws[w].i, ds.burst[ds.j])]))
  {
    var t := Still(c, rd, ds, co, wr, ws);
    assert t.local[WORKERS + w] == ws[w];
    var u := Hands(Network(c), s, t, DISTRIBUTOR, WORKERS + w, DIn(w), Word(ds.burst[ds.j]));
    assert u.local == Still(c, rd, Sent(c, ds), co, wr, ws[w := SendMeasure(ws[w].i, ds.burst[ds.j])]).local;
  }

  lemma CollectOne(c: Config, s: State<Local, Datum>, rd: Local, ds: Local, co: Local, wr: Local, ws: seq<Local>,
                   w: nat, x: int)
    requires Usable(c) && w < c.stream && |ws| == c.maxStream
    requires ws[w].SendMeasure? || ws[w].SendGroup?
    requires co.TakeMeasure? || co.TakeGroup?
    requires ws[w].SendMeasure? ==> co.TakeMeasure? && co.b < c.outBursts && x == c.measure(ws[w].addr)
    requires ws[w].SendGroup? ==> co.TakeGroup? && x == c.group(ws[w].addr)
    requires c.laneOut(co.b, co.j) == w
    requires Reach(Network(c), s, Still(c, rd, ds, co, wr, ws))
    ensures Reach(Network(c), s, Still(c, rd, ds, Got(c, co, Word(x)), wr, ws[w := Sent(c, ws[w])]))
  {
    var t := Still(c, rd, ds, co, wr, ws);
    assert t.local[WORKERS + w] == ws[w];
    var ch := if co.TakeMeasure? then DMeasure(w) else DGroup(w);
    var u := Hands(Network(c), s, t, WORKERS + w, COLLECTOR, ch, Word(x));
    assert u.local == Still(c, rd, ds, Got(c, co, Word(x)), wr, ws[w := Sent(c, ws[w])]).local;
  }

  /** One entry passes from the distributor through worker w to the collector. */
  lemma WorkOne(c: Config, s: State<Local, Datum>, rd: Local, ds: Local, co: Local, wr: Local, ws: seq<Local>, w: nat,
                x: int)
    requires Usable(c) && w < c.stream && |ws| == c.maxStream
    requires ds.Deal? && ds.j < |ds.burst| && ds.burst[ds.j] == x && c.laneIn(ds.b, ds.j) == w
    requires ws[w].Wait? && ws[w].i < c.perStream
    requires co.TakeMeasure? && co.b < c.outBursts && c.laneOut(co.b, co.j) == w
    requires Reach(Network(c), s, Still(c, rd, ds, co, wr, ws))
    ensures Reach(Network(c), s, Still(c, rd, Sent(c, ds), Collected(c, co, x), wr, ws[w := Wait(ws[w].i + 1)]))
  {
    var i, ds' := ws[w].i, Sent(c, ds);
    DealOne(c, s, rd, ds, co, wr, ws, w);
    var ws1 := ws[w := SendMeasure(i, x)];
    CollectOne(c, s, rd, ds', co, wr, ws1, w, c.measure(x));
    var ws2 := ws1[w := SendGroup(i, x)];
    CollectOne(c, s, rd, ds', Got(c, co, Word(c.measure(x))), wr, ws2, w, c.group(x));
    assert ws2[w := Wait(i + 1)] == ws[w := Wait(i + 1)];
  }

  function Collected(c: Config, co: Local, x: int): Local {
    Got(c, Got(c, co, Word(c.measure(x))), Word(c.group(x)))
  }

  lemma StoreOne(c: Config, s: State<Local, Datum>, rd: Local, ds: Local, co: Local, wr: Local, ws: seq<Local>)
    requires Usable(c) && co.SendBurst? && wr.Writer? && |wr.out| < c.outBursts
    requires Reach(Network(c), s, Still(c, rd, ds, co, wr, ws))
    ensures Reach(Network(c), s, Still(c, rd, ds, TakeMeasure(co.b + 1, 0, []), Writer(wr.out + [co.dout]), ws))
  {
    var t := Still(c, rd, ds, co, wr, ws);
    var u := Hands(Network(c), s, t, COLLECTOR, WRITER, OUTBURST, Burst(co.dout));
    assert u == Still(c, rd, ds, TakeMeasure(co.b + 1, 0, []), Writer(wr.out + [co.dout]), ws);
  }

  lemma BelowTotal(c: Config, e: nat)
    requires Valid(c) && e < Total(c)
    ensures e / c.kIn < |c.input| && e / c.kOut < c.outBursts && e / c.stream < c.perStream
    ensures |c.input[e / c.kIn]| == c.kIn
  {
    QuotientBelow(c.kIn, e, |c.input|);
    QuotientBelow(c.kOut, e, c.outBursts);
    QuotientBelow(c.stream, e, c.perStream);
  }

  lemma NextWorkers(c: Config, e: nat)
    requires Usable(c)
    ensures var w, ws := e % c.stream, WorkersAt(c, e);
            0 <= w < c.maxStream && ws[w] == Wait(e / c.stream)
              && ws[w := Wait(e / c.stream + 1)] == WorkersAt(c, e + 1)
  {
    QuotientStep(c.stream, e);
    var w0 := e % c.stream;
    ShareStep(c.stream, w0, e);
    forall w: nat | w < c.stream
      ensures Share(c.stream, w, e + 1) == Share(c.stream, w, e) + (if w == w0 then 1 else 0)
    {
      ShareStep(c.stream, w, e);
    }
  }

  lemma NextWords(c: Config, from: nat, e: nat)
    requires from <= e
    ensures Words(c, from, e + 1) == Words(c, from, e) + [c.measure(Entry(c, e))] + [c.group(Entry(c, e))]
  {
    var x := Entry(c, e);
    assert [c.measure(x), c.group(x)] == [c.measure(x)] + [c.group(x)];
  }

  lemma NextOutBursts(c: Config, n: nat)
    ensures OutBursts(c, n + 1) == OutBursts(c, n) + [Words(c, n * c.kOut, n * c.kOut + c.kOut)]
  {
  }

  /** What the collector holds after entry e: one more row, or a complete burst. */
  lemma NextCollector(c: Config, e: nat, b: nat, j: nat)
    requires Usable(c) && b == e / c.kOut && j == e % c.kOut
    ensures var co := Collected(c, CollectorAt(c, e), Entry(c, e));
            if j + 1 == c.kOut
            then co == SendBurst(b, Words(c, b * c.kOut, b * c.kOut + c.kOut))
                 && CollectorAt(c, e + 1) == TakeMeasure(b + 1, 0, []) && (e + 1) / c.kOut == b + 1
            else co == CollectorAt(c, e + 1) && (e + 1) / c.kOut == b
  {
    QuotientStep(c.kOut, e);
    NextWords(c, e - j, e);
  }

  lemma NextDistributor(c: Config, e: nat)
    requires Valid(c) && e < Total(c)
    ensures e / c.kIn < |c.input|
    ensures Sent(c, Deal(e / c.kIn, e % c.kIn, c.input[e / c.kIn])) == DistributorAt(c, e + 1)
    ensures ReaderAt(c, e + 1) == Reader(e / c.kIn + 1)
  {
    BelowTotal(c, e);
    QuotientStep(c.kIn, e);
  }

  lemma Finish(c: Config, s: State<Local, Datum>, e: nat, b: nat, rd: Local, ds: Local, ws: seq<Local>)
    requires Usable(c) && b == e / c.kOut < c.outBursts
    requires Reach(Network(c), s,
        Still(c, rd, ds, Collected(c, CollectorAt(c, e), Entry(c, e)), Writer(OutBursts(c, b)), ws))
    ensures Reach(Network(c), s, Still(c, rd, ds, CollectorAt(c, e + 1), Writer(OutBursts(c, (e + 1) / c.kOut)), ws))
  {
    NextCollector(c, e, b, e % c.kOut);
    var co := Collected(c, CollectorAt(c, e), Entry(c, e));
    if co.SendBurst? {
      StoreOne(c, s, rd, ds, co, Writer(OutBursts(c, b)), ws);
      NextOutBursts(c, b);
    }
  }

  /** Entry e, dealt, looked up and collected, with every FIFO empty before and after. */
  lemma OneEntry(c: Config, e: nat)
    requires Valid(c) && e < Total(c)
    ensures Reach(Network(c), Through(c, e), Through(c, e + 1))
  {
    var s, b, j, w := Through(c, e), e / c.kIn, e % c.kIn, e % c.stream;
    BelowTotal(c, e);
    NextWorkers(c, e);
    NextDistributor(c, e);
    var co, wr, ws := CollectorAt(c, e), Writer(OutBursts(c, e / c.kOut)), WorkersAt(c, e);
    var rd, ds := Reader(b + 1), Deal(b, j, c.input[b]);
    Start(Network(c), s);
    if j == 0 {
      FetchOne(c, s, b, co, wr, ws);
    }
    WorkOne(c, s, rd, ds, co, wr, ws, w, Entry(c, e));
    Finish(c, s, e, e / c.kOut, rd, Sent(c, ds), WorkersAt(c, e + 1));
  }

  lemma {:induction false} Entries(c: Config, e: nat)
    requires Valid(c) && e <= Total(c)
    ensures Reach(Network(c), Through(c, 0), Through(c, e))
  {
    hide Still, ReaderAt, DistributorAt, CollectorAt, WorkersAt, OutBursts, Through, Network;
    if e == 0 {
      Start(Network(c), Through(c, 0));
    } else {
      Entries(c, e - 1);
      OneEntry(c, e - 1);
      Join(Network(c), Through(c, 0), Through(c, e - 1), Through(c, e));
    }
  }

  /** The state before the first step: empty FIFOs, every process at the top of its loops. */
  function Initial(c: Config): State<Local, Datum> {
    Still(c, Reader(0), Fetch(0), TakeMeasure(0, 0, []), Writer([]),
          seq(c.maxStream, w => if w < c.stream then Wait(0) else Idle))
  }

  lemma InitialIsThroughZero(c: Config)
    requires Usable(c)
    ensures Initial(c) == Through(c, 0)
  {
    DivideUnique(0, c.kIn, 0, 0);
    DivideUnique(0, c.kOut, 0, 0);
    DivideUnique(0, c.stream, 0, 0);
    assert Initial(c).local == Through(c, 0).local;
  }

  /** The output burst array holds, at entry e, the row that input entry e points to. */
  ghost predicate Gathered(c: Config, out: seq<seq<int>>) {
    && |out| == c.outBursts
    && (forall b :: 0 <= b < |out| ==> |out[b]| == 2 * c.kOut)
    && forall b, r :: 0 <= b < |out| && 0 <= r < c.kOut ==>
         && out[b][2 * r] == c.measure(Entry(c, b * c.kOut + r))
         && out[b][2 * r + 1] == c.group(Entry(c, b * c.kOut + r))
  }

  lemma {:induction false} WordsAt(c: Config, from: nat, until: nat, r: nat)
    requires from + r < until
    ensures Words(c, from, until)[2 * r] == c.measure(Entry(c, from + r))
    ensures Words(c, from, until)[2 * r + 1] == c.group(Entry(c, from + r))
    decreases until
  {
    if from + r + 1 < until {
      WordsAt(c, from, until - 1, r);
    }
  }

  lemma OutBurstsGathered(c: Config)
    ensures Gathered(c, OutBursts(c, c.outBursts))
  {
    forall b, r | 0 <= b < c.outBursts && 0 <= r < c.kOut
      ensures OutBursts(c, c.outBursts)[b][2 * r] == c.measure(Entry(c, b * c.kOut + r))
      ensures OutBursts(c, c.outBursts)[b][2 * r + 1] == c.group(Entry(c, b * c.kOut + r))
    {
      WordsAt(c, b * c.kOut, b * c.kOut + c.kOut, r);
    }
  }

  /** With all entries through, every process has left its loops. */
  lemma AllThroughIsBlocked(c: Config)
    requires Valid(c)
    ensures Through(c, Total(c)).local[WRITER] == Writer(OutBursts(c, c.outBursts))
    ensures Blocked(Network(c), Through(c, Total(c)))
  {
    var n, t := Total(c), Through(c, Total(c));
    DivideUnique(n, c.kIn, |c.input|, 0);
    DivideUnique(n, c.kOut, c.outBursts, 0);
    DivideUnique(n, c.stream, c.perStream, 0);
    forall p: nat | p < |t.local|
      ensures Next(c, p, t.local[p]) == Stop
    {
      if p >= WORKERS {
        assert t.local[p] == WorkerAt(c, p - WORKERS, n);
      }
    }
  }

  /**
    The gather network at any FIFO depth from 1 on. Whatever the scheduler has done so far: it can
    finish; and it is stuck exactly when every FIFO is empty and the whole output has been gathered.
  */
  lemma EveryScheduleGathers(c: Config, u: State<Local, Datum>)
    requires Valid(c) && Reach(Network(c), Initial(c), u)
    ensures Always(Network(c), Initial(c), Through(c, Total(c)))
    ensures Reach(Network(c), u, Through(c, Total(c)))
    ensures Blocked(Network(c), u) <==> u == Through(c, Total(c))
    ensures Blocked(Network(c), u) ==>
              && u.local[WRITER].Writer? && Gathered(c, u.local[WRITER].out)
              && forall ch :: 0 <= ch < |u.fifo| ==> u.fifo[ch] == []
  {
    InitialIsThroughZero(c);
    Entries(c, Total(c));
    AllThroughIsBlocked(c);
    NetworkDisciplined(c);
    OneScheduleSuffices(Network(c), Initial(c), Through(c, Total(c)));
    AlwaysMeans(Network(c), Initial(c), Through(c, Total(c)), u);
    OutBurstsGathered(c);
  }

  // ----- the kernel's own numbers -----

  /** Row `addr` of a table stored four rows to the burst: measure and group words side by side. */
  function TableWord(table: seq<seq<int>>, addr: int, word: nat): int {
    if 0 <= addr < 4 * |table| && 2 * (addr % 4) + word < |table[addr / 4]|
      then table[addr / 4][2 * (addr % 4) + word] else 0
  }

  /** Eight indices and four rows to a burst, up to 16 streams. */
  function KernelConfig(stream: nat, depth: nat, input: seq<seq<int>>, table: seq<seq<int>>): Config
    requires stream > 0
  {
    Config(8, 4, stream, 16, (|input| * 8) / stream, |input| * 2, depth, input,
           (b, j) => if Compatible(stream, 8) then Lane(stream, 8, b, j) else 0,
           (b, j) => if Compatible(stream, 4) then Lane(stream, 4, b, j) else 0,
           addr => TableWord(table, addr, 0), addr => TableWord(table, addr, 1))
  }

  /** For each stream count the opmode can select, both layouts meet the network's requirements. */
  lemma KernelConfigValid(stream: nat, depth: nat, input: seq<seq<int>>, table: seq<seq<int>>)
    requires stream in {1, 2, 4, 8, 16} && depth >= 1 && |input| % 2 == 0
    requires forall b :: 0 <= b < |input| ==> |input[b]| == 8
    ensures Valid(KernelConfig(stream, depth, input, table))
  {
    var c := KernelConfig(stream, depth, input, table);
    forall e: nat
      ensures c.laneIn(e / c.kIn, e % c.kIn) == e % c.stream == c.laneOut(e / c.kOut, e % c.kOut)
    {
      LaneOfEntry(stream, 8, e);
      LaneOfEntry(stream, 4, e);
    }
  }
}
