/**
  The gather, end to end: kernels that run as networks of processes over bounded FIFOs, on remapped
  indices, inside the driver with callbacks. However kernels, read-backs and callbacks interleave, and
  however each network is scheduled, a stopped run leaves A[in[i]] at every place i of the result.
*/
module GatherAgreement {
  import opened Machine
  import opened Banks
  import opened Flatten
  import opened Interleave
  import G = Gather
  import K = Kahn
  import N = GatherNetwork
  import P = PingPong
  import R = Runs

  /** Table, indices, bank layout and kernel: `bursts` input bursts to a block, eight indices to a burst. */
  datatype Task = Task(
    a: seq<Row>, input: seq<int>, per: nat, stride: nat, ddr: seq<G.Burst>, stream: nat, depth: nat, blocks: nat,
      bursts: nat)

  ghost predicate ValidTask(t: Task) {
    && t.per > 0 && G.StreamCount(t.stream) && t.depth > 0
    && t.bursts > 0 && t.bursts % 2 == 0 && |t.input| == Product(t.blocks, 8 * t.bursts)
    && (forall i :: 0 <= i < |t.input| ==> 0 <= t.input[i] < |t.a|)
    && Serves(t.ddr, t.a, t.per, t.stride)
  }

  /** The remapped index i, as `InMapp` stores it. */
  function MappedAt(t: Task, i: nat): int
    requires t.per > 0
  {
    if i < |t.input| && t.input[i] >= 0 then UInt32(Banked(t.input[i], t.per, t.stride)) else 0
  }

  /** The input bursts of block k. */
  function BlockIn(t: Task, k: nat): (bs: seq<G.Burst>)
    requires t.per > 0
    ensures |bs| == t.bursts
  {
    InBursts(seq(8 * t.bursts, e requires 0 <= e => MappedAt(t, Product(k, 8 * t.bursts) + e)))
  }

  function KernelOn(t: Task, k: nat): N.Config
    requires t.per > 0 && t.stream > 0
  {
    N.KernelConfig(t.stream, t.depth, BlockIn(t, k), t.ddr)
  }

  /** Word w of burst b, among the output bursts end to end. */
  lemma WordAt(out: seq<seq<int>>, b: nat, w: nat)
    requires b < |out| && w < 8 && Rectangular(out, 8)
    ensures 8 * b + w < |Flat(out)| && Flat(out)[8 * b + w] == out[b][w]
  {
    FlatAt(out, 8, b, w);
    ProductIs(b, 8);
  }

  /** Some schedule of the network gets stuck with these words written. */
  ghost predicate Writes(c: N.Config, result: seq<int>) {
    exists u :: Ends(c, u) && u.local[N.WRITER].Writer? && result == Flat(u.local[N.WRITER].out)
  }

  ghost predicate Ends(c: N.Config, u: K.State<N.Local, N.Datum>) {
    K.Reach(N.Network(c), N.Initial(c), u) && K.Blocked(N.Network(c), u) && N.WRITER < |u.local|
  }

  lemma KernelValid(t: Task, k: nat)
    requires ValidTask(t)
    ensures N.Valid(KernelOn(t, k))
  {
    N.KernelConfigValid(t.stream, t.depth, BlockIn(t, k), t.ddr);
  }

  // ----- one block -----

  /** The two words of entry e of a block. */
  ghost predicate HasRow(t: Task, k: nat, result: seq<int>, e: nat)
    requires t.per > 0
  {
    && 2 * e + 1 < |result|
    && result[2 * e] == G.TableWord(t.ddr, MappedAt(t, Product(k, 8 * t.bursts) + e), 0)
    && result[2 * e + 1] == G.TableWord(t.ddr, MappedAt(t, Product(k, 8 * t.bursts) + e), 1)
  }

  /** Whatever the schedule, what a kernel writes has the table words of all its entries. */
  lemma KernelWrites(t: Task, k: nat, result: seq<int>)
    requires ValidTask(t) && Writes(KernelOn(t, k), result)
    ensures |result| == 16 * t.bursts
    ensures forall e: nat :: e < 8 * t.bursts ==> HasRow(t, k, result, e)
  {
    hide Serves, K.Reach, K.Blocked, N.Network, N.Initial, N.Valid, N.Through, K.Always;
    var c := KernelOn(t, k);
    var u :| Ends(c, u) && u.local[N.WRITER].Writer? && result == Flat(u.local[N.WRITER].out);
    KernelValid(t, k);
    N.EveryScheduleGathers(c, u);
    var out := u.local[N.WRITER].out;
    FlatLength(out, 8);
    ProductIs(|out|, 8);
    forall e: nat | e < 8 * t.bursts
      ensures HasRow(t, k, result, e)
    {
      GatheredRow(t, k, out, e);
    }
  }

  lemma EntryIsMapped(t: Task, k: nat, e: nat)
    requires t.per > 0 && t.stream > 0 && e < 8 * t.bursts
    ensures N.Entry(KernelOn(t, k), e) == MappedAt(t, Product(k, 8 * t.bursts) + e)
  {
    hide MappedAt, Product;
    assert N.Entry(KernelOn(t, k), e) == G.EntryAt(BlockIn(t, k), e);
  }

  lemma GatheredRow(t: Task, k: nat, out: seq<seq<int>>, e: nat)
    requires t.per > 0 && t.stream > 0 && e < 8 * t.bursts && N.Gathered(KernelOn(t, k), out)
    ensures HasRow(t, k, Flat(out), e)
  {
    hide MappedAt, BlockIn, N.Entry, Flat, Product;
    var c, b, r := KernelOn(t, k), e / 4, e % 4;
    assert b < |out| && e == 4 * b + r;
    WordAt(out, b, 2 * r);
    WordAt(out, b, 2 * r + 1);
    EntryIsMapped(t, k, e);
    assert out[b][2 * r] == c.measure(N.Entry(c, b * c.kOut + r));
  }

  // ----- the whole result -----

  /** Row i of the result array. */
  function ResultRow(out: seq<int>, i: nat): Row {
    if 2 * i + 1 < |out| then Row(out[2 * i], out[2 * i + 1]) else Row(0, 0)
  }

  /**
    The driver's job: as many blocks as the task has, two words to an index, each kernel's output from some schedule
    of its network.
  */
  ghost predicate RunsTask(job: P.Job, t: Task) {
    && P.ValidJob(job) && t.per > 0 && t.stream > 0 && job.blocks == t.blocks && job.size == 16 * t.bursts
    && forall k: nat :: k < t.blocks ==> Writes(KernelOn(t, k), job.result[k])
  }

  lemma MappedRow(t: Task, i: nat)
    requires ValidTask(t) && i < |t.input|
    ensures G.TableWord(t.ddr, MappedAt(t, i), 0) == t.a[t.input[i]].measure
    ensures G.TableWord(t.ddr, MappedAt(t, i), 1) == t.a[t.input[i]].group
  {
    var k: nat := t.input[i];
    assert G.InRange(t.ddr, Banked(k, t.per, t.stride));
  }

  /** Entry i lies in block i / (8 * bursts), and its two words where row i of the result is. */
  lemma PlaceOfEntry(t: Task, k: nat, e: nat, size: nat)
    requires size == 16 * t.bursts
    ensures Product(k, size) + 2 * e == 2 * (Product(k, 8 * t.bursts) + e)
  {
    ProductIs(k, size);
    ProductIs(k, 8 * t.bursts);
    Associate(k, 2, 8 * t.bursts);
    Associate(2, k, 8 * t.bursts);
  }

  lemma OutWord(job: P.Job, s: P.State, k: nat, w: nat)
    requires P.Shape(job, s) && k < job.blocks && w < job.size && P.OutBlock(job, s, k) == job.result[k]
    ensures P.Place(job, k, w) < |s.out| && s.out[P.Place(job, k, w)] == job.result[k][w]
  {
    P.PlaceInside(job, k, w);
    P.PlaceInside(job, k, job.size - 1);
    assert P.OutBlock(job, s, k)[w] == s.out[P.Place(job, k, 0) + w];
  }

  lemma SplitIndex(n: nat, d: nat, i: nat) returns (k: nat, e: nat)
    requires d > 0 && i < Product(n, d)
    ensures k < n && e < d && i == Product(k, d) + e
  {
    hide Product;
    k, e := i / d, i % d;
    ProductIs(k, d);
    ProductIs(n, d);
    QuotientBelow(d, i, n);
  }

  lemma BlockOfEntry(t: Task, i: nat) returns (k: nat, e: nat)
    requires t.bursts > 0 && i < Product(t.blocks, 8 * t.bursts)
    ensures k < t.blocks && e < 8 * t.bursts && i == Product(k, 8 * t.bursts) + e
  {
    k, e := SplitIndex(t.blocks, 8 * t.bursts, i);
  }

  /** Block k in place means that every row of the block is the one its index points to. */
  lemma RowInPlace(t: Task, job: P.Job, s: P.State, k: nat, e: nat)
    requires ValidTask(t) && RunsTask(job, t) && P.Shape(job, s) && k < t.blocks && e < 8 * t.bursts
    requires P.OutBlock(job, s, k) == job.result[k] && Product(k, 8 * t.bursts) + e < |t.input|
    ensures ResultRow(s.out, Product(k, 8 * t.bursts) + e) == t.a[t.input[Product(k, 8 * t.bursts) + e]]
  {
    hide Serves, N.Valid, Writes, P.OutBlock, G.TableWord;
    KernelWrites(t, k, job.result[k]);
    assert HasRow(t, k, job.result[k], e);
    OutWord(job, s, k, 2 * e);
    OutWord(job, s, k, 2 * e + 1);
    PlaceOfEntry(t, k, e, job.size);
    MappedRow(t, Product(k, 8 * t.bursts) + e);
  }

  /**
    The gather is right: a run of the driver, in any interleaving, that cannot go on has written the row
    A[in[i]] at every i, with each kernel a network of bounded FIFOs under a schedule of its own.
  */
  lemma GatherIsRight(t: Task, job: P.Job, s: P.State, n: nat, u: P.State)
    requires ValidTask(t) && RunsTask(job, t)
    requires P.Start(job, s) && R.Reaches(P.AsSystem(job), s, n, u) && R.Quiet(P.AsSystem(job), u)
    ensures forall i: nat :: i < |t.input| ==> ResultRow(u.out, i) == t.a[t.input[i]]
  {
    hide Serves, N.Valid, Writes, P.OutBlock, P.Enabled, P.Step, P.InPlace, P.InOrder, ResultRow, Product;
    P.StopsWithAllInPlace(job, s, n, u);
    P.StartInv(job, s);
    P.RunInv(job, s, n, u);
    forall i: nat | i < |t.input|
      ensures ResultRow(u.out, i) == t.a[t.input[i]]
    {
      var k, e := BlockOfEntry(t, i);
      RowInPlace(t, job, u, k, e);
    }
  }

  /** Such kernel outputs exist for every task: each network can always run to its end. */
  lemma KernelAlwaysWrites(t: Task, k: nat) returns (result: seq<int>)
    requires ValidTask(t)
    ensures Writes(KernelOn(t, k), result)
  {
    hide Serves, N.Valid, K.Reach, K.Blocked, N.Network, N.Initial, K.Always;
    var c := KernelOn(t, k);
    KernelValid(t, k);
    K.Start(N.Network(c), N.Initial(c));
    N.EveryScheduleGathers(c, N.Initial(c));
    var u := N.Through(c, N.Total(c));
    K.AlwaysMeans(N.Network(c), N.Initial(c), u, N.Initial(c));
    N.EveryScheduleGathers(c, u);
    assert Ends(c, u);
    result := Flat(u.local[N.WRITER].out);
  }
}
