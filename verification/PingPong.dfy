/**
  The output side of the gather driver with callbacks: two device buffers, two host mirrors, and for
  every block a kernel, a read-back and a callback that copies the mirror to the block's place in the
  result. All of them write word by word and interleave freely, held back only by the events they wait for.
*/
module PingPong {
  import opened Machine
  import opened Runs

  /** Number of blocks, words per block, what each kernel computes, and what the result array holds before. */
  datatype Job = Job(blocks: nat, size: nat, result: seq<seq<int>>, before: seq<int>)

  predicate ValidJob(job: Job) {
    && job.size > 0 && |job.result| == job.blocks && |job.before| == Product(job.blocks, job.size)
    && forall k :: 0 <= k < job.blocks ==> |job.result[k]| == job.size
  }

  /**
    How many host calls were made, three to a block; how many words each kernel, read-back and callback has written;
    the memory.
  */
  datatype State = State(
    queued: nat, kpos: seq<nat>, rpos: seq<nat>, cpos: seq<nat>,
    dev: seq<seq<int>>, mirror: seq<seq<int>>, out: seq<int>)

  /** The host has made call j for block k: 0 enqueues the kernel, 1 the read-back, 2 sets the callback. */
  predicate Called(s: State, k: nat, j: nat) {
    s.queued > 3 * k + j
  }

  predicate KernelDone(job: Job, s: State, k: nat) {
    k < |s.kpos| && s.kpos[k] == job.size
  }

  predicate ReadDone(job: Job, s: State, k: nat) {
    k < |s.rpos| && s.rpos[k] == job.size
  }

  predicate CallbackDone(job: Job, s: State, k: nat) {
    k < |s.cpos| && s.cpos[k] == job.size
  }

  datatype Action = Call | Kernel(k: nat) | Read(k: nat) | Callback(k: nat)

  function ActionOf(p: nat): Action {
    if p == 0 then Call
    else if p % 3 == 1 then Kernel(p / 3) else if p % 3 == 2 then Read(p / 3) else Callback(p / 3 - 1)
  }

  predicate Shape(job: Job, s: State) {
    && ValidJob(job)
    && |s.kpos| == |s.rpos| == |s.cpos| == job.blocks
    && |s.dev| == |s.mirror| == 2
    && (forall b :: 0 <= b < 2 ==> |s.dev[b]| == |s.mirror[b]| == job.size)
    && |s.out| == Product(job.blocks, job.size)
    && s.queued <= 3 * job.blocks
    && forall k :: 0 <= k < job.blocks ==> s.kpos[k] <= job.size && s.rpos[k] <= job.size && s.cpos[k] <= job.size
  }

  /** The events that each action waits for. */
  predicate Enabled(job: Job, s: State, a: Action) {
    Shape(job, s) &&
    match a
    case Call =>
      s.queued < 3 * job.blocks && (s.queued % 3 == 0 && s.queued >= 6 ==> ReadDone(job, s, s.queued / 3 - 2))
    case Kernel(k) =>
      k < job.blocks && s.kpos[k] < job.size && Called(s, k, 0) && (k >= 2 ==> ReadDone(job, s, k - 2))
    case Read(k) =>
      k < job.blocks && s.rpos[k] < job.size && Called(s, k, 1) && KernelDone(job, s, k)
        && (k >= 2 ==> CallbackDone(job, s, k - 2))
    case Callback(k) =>
      k < job.blocks && s.cpos[k] < job.size && Called(s, k, 2) && ReadDone(job, s, k)
  }

  /** Where word i of block k belongs in the result array. */
  function Place(job: Job, k: nat, i: nat): nat {
    Product(k, job.size) + i
  }

  lemma PlaceInside(job: Job, k: nat, i: nat)
    requires k < job.blocks && i < job.size
    ensures Place(job, k, i) < Product(job.blocks, job.size)
  {
    ProductIs(k, job.size);
    ProductIs(job.blocks, job.size);
    ProductGap(k, job.blocks, job.size);
  }

  lemma PlacesApart(job: Job, k: nat, i: nat, l: nat, j: nat)
    requires i < job.size && j < job.size && (k != l || i != j)
    ensures Place(job, k, i) != Place(job, l, j)
  {
    ProductIs(k, job.size);
    ProductIs(l, job.size);
    if k < l {
      ProductGap(k, l, job.size);
    } else if l < k {
      ProductGap(l, k, job.size);
    }
  }

  function Put(bufs: seq<seq<int>>, k: nat, i: nat, x: int): seq<seq<int>>
    requires |bufs| == 2 && i < |bufs[k % 2]|
  {
    bufs[k % 2 := bufs[k % 2][i := x]]
  }

  function PutOut(out: seq<int>, at: nat, x: int): seq<int> {
    if at < |out| then out[at := x] else out
  }

  function Step(job: Job, s: State, a: Action): State
    requires Enabled(job, s, a)
  {
    match a
    case Call => s.(queued := s.queued + 1)
    case Kernel(k) =>
      var i := s.kpos[k];
      s.(kpos := s.kpos[k := i + 1], dev := Put(s.dev, k, i, job.result[k][i]))
    case Read(k) =>
      var i := s.rpos[k];
      s.(rpos := s.rpos[k := i + 1], mirror := Put(s.mirror, k, i, s.dev[k % 2][i]))
    case Callback(k) =>
      var i := s.cpos[k];
      s.(cpos := s.cpos[k := i + 1], out := PutOut(s.out, Place(job, k, i), s.mirror[k % 2][i]))
  }

  function AsSystem(job: Job): System<State> {
    System((s, p) => Enabled(job, s, ActionOf(p)),
           (s, p) => if Enabled(job, s, ActionOf(p)) then Step(job, s, ActionOf(p)) else s)
  }

  // ----- the invariant -----

  /** Commands run in the order that their events impose. */
  predicate InOrder(job: Job, s: State, k: nat)
    requires Shape(job, s) && k < job.blocks
  {
    && (Called(s, k, 0) && k >= 2 ==> s.rpos[k - 2] == job.size)
    && (s.kpos[k] > 0 ==> Called(s, k, 0))
    && (s.rpos[k] > 0 ==> Called(s, k, 1) && s.kpos[k] == job.size && (k >= 2 ==> s.cpos[k - 2] == job.size))
    && (s.cpos[k] > 0 ==> Called(s, k, 2) && s.rpos[k] == job.size)
  }

  /** Until the next block of the same parity begins, a buffer holds what block k has written to it. */
  predicate InPlace(job: Job, s: State, k: nat, i: nat)
    requires Shape(job, s) && k < job.blocks && i < job.size
  {
    && (i < s.kpos[k] && (k + 2 < job.blocks ==> s.kpos[k + 2] == 0) ==> s.dev[k % 2][i] == job.result[k][i])
    && (i < s.rpos[k] && (k + 2 < job.blocks ==> s.rpos[k + 2] == 0) ==> s.mirror[k % 2][i] == job.result[k][i])
    && (Place(job, k, i) < |s.out| ==> s.out[Place(job, k, i)] == if i < s.cpos[k] then job.result[k][i]
      else job.before[Place(job, k, i)])
  }

  ghost predicate Inv(job: Job, s: State) {
    && Shape(job, s)
    && (forall k: nat :: k < job.blocks ==> InOrder(job, s, k))
    && forall k: nat, i: nat :: k < job.blocks && i < job.size ==> InPlace(job, s, k, i)
  }

  function Initial(job: Job, dev: seq<seq<int>>, mirror: seq<seq<int>>): State {
    var none: seq<nat> := seq(job.blocks, _ => 0);
    State(0, none, none, none, dev, mirror, job.before)
  }

  ghost predicate Start(job: Job, s: State) {
    Shape(job, s) && s == Initial(job, s.dev, s.mirror)
  }

  lemma StartInv(job: Job, s: State)
    requires Start(job, s)
    ensures Inv(job, s)
  {
  }

  /**
    Every block of the same parity before one whose kernel was enqueued has been read back; before one that is read
    back, it has been copied.
  */
  lemma {:induction false} Earlier(job: Job, s: State, k: nat, j: nat)
    requires Inv(job, s) && k < j < job.blocks && k % 2 == j % 2
    ensures Called(s, j, 0) ==> s.kpos[k] == s.rpos[k] == job.size
    ensures s.rpos[j] > 0 ==> s.cpos[k] == job.size
    decreases j
  {
    assert InOrder(job, s, j) && InOrder(job, s, j - 2);
    if k < j - 2 {
      Earlier(job, s, k, j - 2);
    }
  }

  lemma StepInOrder(job: Job, s: State, a: Action, k: nat)
    requires Inv(job, s) && Enabled(job, s, a) && k < job.blocks
    ensures Shape(job, Step(job, s, a)) && InOrder(job, Step(job, s, a), k)
  {
    assert InOrder(job, s, k);
    if k >= 2 {
      assert InOrder(job, s, k - 2);
    }
  }

  /**
    While kernel j runs, no other block of its parity has words in the device buffer that are still to be read back.
  */
  lemma OthersRead(job: Job, s: State, j: nat, k: nat)
    requires Inv(job, s) && Enabled(job, s, Kernel(j)) && k < job.blocks && k != j && k % 2 == j % 2
    ensures s.kpos[k] == 0 || k + 2 == j || (k + 2 < job.blocks && k + 2 != j && s.kpos[k + 2] > 0)
  {
    hide InPlace;
    if k < j && k + 2 != j {
      Earlier(job, s, k + 2, j);
    } else if j < k && s.kpos[k] > 0 {
      assert InOrder(job, s, k);
      Earlier(job, s, j, k);
    }
  }

  lemma KernelInPlace(job: Job, s: State, j: nat, k: nat, i: nat)
    requires Inv(job, s) && Enabled(job, s, Kernel(j)) && k < job.blocks && i < job.size
    ensures Shape(job, Step(job, s, Kernel(j))) && InPlace(job, Step(job, s, Kernel(j)), k, i)
  {
    hide Place, InOrder;
    if k != j && k % 2 == j % 2 {
      OthersRead(job, s, j, k);
    }
    assert InPlace(job, s, k, i);
    hide Inv;
  }

  /** What a read-back copies is its own block's word. */
  lemma ReadsOwnBlock(job: Job, s: State, j: nat)
    requires Inv(job, s) && Enabled(job, s, Read(j))
    ensures s.dev[j % 2][s.rpos[j]] == job.result[j][s.rpos[j]]
  {
    hide Place;
    assert InPlace(job, s, j, s.rpos[j]);
    if j + 2 < job.blocks {
      assert InOrder(job, s, j + 2);
    }
  }

  /** While block j is read back, no other block of its parity has words in the mirror that are still to be copied. */
  lemma OthersCopied(job: Job, s: State, j: nat, k: nat)
    requires Inv(job, s) && Enabled(job, s, Read(j)) && k < job.blocks && k != j && k % 2 == j % 2
    ensures s.rpos[k] == 0 || k + 2 == j || (k + 2 < job.blocks && k + 2 != j && s.rpos[k + 2] > 0)
  {
    hide InPlace;
    if k < j && k + 2 != j {
      Earlier(job, s, k + 2, j);
    } else if j < k && s.rpos[k] > 0 {
      assert InOrder(job, s, k);
      Earlier(job, s, j, k);
    }
  }

  lemma ReadInPlace(job: Job, s: State, j: nat, k: nat, i: nat)
    requires Inv(job, s) && Enabled(job, s, Read(j)) && k < job.blocks && i < job.size
    ensures Shape(job, Step(job, s, Read(j))) && InPlace(job, Step(job, s, Read(j)), k, i)
  {
    hide Place, InOrder;
    ReadsOwnBlock(job, s, j);
    if k != j && k % 2 == j % 2 {
      OthersCopied(job, s, j, k);
    }
    assert InPlace(job, s, k, i);
    hide Inv;
  }

  lemma CallbackInPlace(job: Job, s: State, j: nat, k: nat, i: nat)
    requires Inv(job, s) && Enabled(job, s, Callback(j)) && k < job.blocks && i < job.size
    ensures Shape(job, Step(job, s, Callback(j))) && InPlace(job, Step(job, s, Callback(j)), k, i)
  {
    hide Place;
    assert InPlace(job, s, k, i);
    assert InPlace(job, s, j, s.cpos[j]);
    PlaceInside(job, j, s.cpos[j]);
    if j + 2 < job.blocks {
      assert InOrder(job, s, j + 2);
    }
    if k != j || i != s.cpos[j] {
      PlacesApart(job, k, i, j, s.cpos[j]);
    }
  }

  /** Every action of host, device and runtime keeps the invariant. */
  lemma StepInv(job: Job, s: State, a: Action)
    requires Inv(job, s) && Enabled(job, s, a)
    ensures Inv(job, Step(job, s, a))
  {
    hide Place;
    var t := Step(job, s, a);
    assert Shape(job, t);
    forall k: nat | k < job.blocks
      ensures InOrder(job, t, k)
    {
      StepInOrder(job, s, a, k);
    }
    forall k: nat, i: nat | k < job.blocks && i < job.size
      ensures InPlace(job, t, k, i)
    {
      match a
      case Call => assert InPlace(job, s, k, i);
      case Kernel(j) => KernelInPlace(job, s, j, k, i);
      case Read(j) => ReadInPlace(job, s, j, k, i);
      case Callback(j) => CallbackInPlace(job, s, j, k, i);
    }
  }

  lemma {:induction false} RunInv(job: Job, s: State, n: nat, t: State)
    requires Inv(job, s) && Reaches(AsSystem(job), s, n, t)
    ensures Inv(job, t)
    decreases n
  {
    hide Inv, Step, Enabled;
    if n > 0 {
      var p: nat :| AsSystem(job).enabled(s, p) && Reaches(AsSystem(job), AsSystem(job).step(s, p), n - 1, t);
      StepInv(job, s, ActionOf(p));
      RunInv(job, Step(job, s, ActionOf(p)), n - 1, t);
    }
  }

  // ----- safety -----

  /** A buffer that a kernel or a read-back is about to write has nothing in it that is still needed. */
  ghost predicate NothingOverwritten(job: Job, s: State) {
    && (forall j: nat, k: nat :: Enabled(job, s, Kernel(j)) && k < j && k % 2 == j % 2 ==> ReadDone(job, s, k))
    && (forall j: nat, k: nat :: Enabled(job, s, Read(j)) && k < j && k % 2 == j % 2 ==> CallbackDone(job, s, k))
    && (forall j: nat, k: nat :: Enabled(job, s, Kernel(j)) && Enabled(job, s, Read(k)) ==> k % 2 != j % 2)
    && (forall j: nat, k: nat :: Enabled(job, s, Read(j)) && Enabled(job, s, Callback(k)) ==> k % 2 != j % 2)
  }

  lemma KernelIsAlone(job: Job, s: State, j: nat, k: nat)
    requires Inv(job, s) && Enabled(job, s, Kernel(j)) && k < job.blocks && k % 2 == j % 2
    ensures k < j ==> ReadDone(job, s, k)
    ensures !Enabled(job, s, Read(k))
  {
    hide InPlace;
    assert InOrder(job, s, j) && InOrder(job, s, k);
    if k < j {
      Earlier(job, s, k, j);
    } else if j < k {
      Earlier(job, s, j, k);
    }
  }

  lemma ReadIsAlone(job: Job, s: State, j: nat, k: nat)
    requires Inv(job, s) && Enabled(job, s, Read(j)) && k < job.blocks && k % 2 == j % 2
    ensures k < j ==> CallbackDone(job, s, k)
    ensures !Enabled(job, s, Callback(k))
  {
    hide InPlace;
    assert InOrder(job, s, j) && InOrder(job, s, k);
    if k < j {
      if k + 2 < j {
        assert InOrder(job, s, j - 2);
        Earlier(job, s, k, j - 2);
      }
    } else if j < k {
      Earlier(job, s, j, k);
    }
  }

  /** In every interleaving, neither the device output buffer nor its host mirror is overwritten too early. */
  lemma NeverOverwritten(job: Job, s: State, n: nat, t: State)
    requires Start(job, s) && Reaches(AsSystem(job), s, n, t)
    ensures NothingOverwritten(job, t)
  {
    hide Inv, Enabled, ReadDone, CallbackDone;
    StartInv(job, s);
    RunInv(job, s, n, t);
    forall j: nat, k: nat | Enabled(job, t, Kernel(j)) && k % 2 == j % 2
      ensures k < j ==> ReadDone(job, t, k)
      ensures !Enabled(job, t, Read(k))
    {
      ActsOnBlock(job, t, j);
      ActsOnBlock(job, t, k);
      if k < job.blocks {
        KernelIsAlone(job, t, j, k);
      }
    }
    forall j: nat, k: nat | Enabled(job, t, Read(j)) && k % 2 == j % 2
      ensures k < j ==> CallbackDone(job, t, k)
      ensures !Enabled(job, t, Callback(k))
    {
      ActsOnBlock(job, t, j);
      ActsOnBlock(job, t, k);
      if k < job.blocks {
        ReadIsAlone(job, t, j, k);
      }
    }
  }

  lemma ActsOnBlock(job: Job, s: State, k: nat)
    ensures Enabled(job, s, Kernel(k)) || Enabled(job, s, Read(k)) || Enabled(job, s, Callback(k)) ==> k < job.blocks
  {
  }

  // ----- results -----

  /** Block k of the result array. */
  function OutBlock(job: Job, s: State, k: nat): seq<int> {
    if Place(job, k, job.size) <= |s.out| then s.out[Place(job, k, 0)..Place(job, k, job.size)] else []
  }

  ghost predicate AllDone(job: Job, s: State) {
    s.queued == 3 * job.blocks && forall k: nat :: k < job.blocks ==> CallbackDone(job, s, k)
  }

  /** Word i of block k in the result array: copied, or as before. */
  predicate Placed(job: Job, s: State, k: nat, i: nat)
    requires Shape(job, s) && k < job.blocks && i < job.size
  {
    && Place(job, k, i) < |s.out|
    && s.out[Place(job, k, i)] == if i < s.cpos[k] then job.result[k][i] else job.before[Place(job, k, i)]
  }

  lemma BlockIs(job: Job, s: State, k: nat)
    requires Inv(job, s) && k < job.blocks
    requires CallbackDone(job, s, k) && forall i: nat :: i < job.size ==> Placed(job, s, k, i)
    ensures OutBlock(job, s, k) == job.result[k]
  {
    hide InOrder, InPlace;
    PlaceInside(job, k, job.size - 1);
    var at := Place(job, k, 0);
    forall i | 0 <= i < job.size
      ensures s.out[at..at + job.size][i] == job.result[k][i]
    {
      assert Placed(job, s, k, i);
      assert Place(job, k, i) == at + i;
    }
  }

  /**
    A block whose callback has run is at its place in the result array; one whose callback has not begun is
    untouched.
  */
  lemma CopiedBlock(job: Job, s: State, k: nat)
    requires Inv(job, s) && k < job.blocks
    ensures CallbackDone(job, s, k) ==> OutBlock(job, s, k) == job.result[k]
    ensures s.cpos[k] == 0 ==> OutBlock(job, s, k) == OutBlock(job, s.(out := job.before), k)
  {
    hide Place, InOrder;
    forall i: nat | i < job.size
      ensures Placed(job, s, k, i)
    {
      PlaceInside(job, k, i);
      assert InPlace(job, s, k, i);
    }
    if CallbackDone(job, s, k) {
      BlockIs(job, s, k);
    }
    if s.cpos[k] == 0 {
      UntouchedBlock(job, s, k);
    }
  }

  lemma UntouchedBlock(job: Job, s: State, k: nat)
    requires Inv(job, s) && k < job.blocks
    requires s.cpos[k] == 0 && forall i: nat :: i < job.size ==> Placed(job, s, k, i)
    ensures OutBlock(job, s, k) == OutBlock(job, s.(out := job.before), k)
  {
    hide InOrder, InPlace;
    PlaceInside(job, k, job.size - 1);
    var at := Place(job, k, 0);
    var now, was := s.out[at..at + job.size], job.before[at..at + job.size];
    forall i | 0 <= i < job.size
      ensures now[i] == was[i]
    {
      assert Placed(job, s, k, i);
      assert Place(job, k, i) == at + i;
    }
    assert now == was;
  }

  // ----- progress -----

  /** Some action is enabled for a block whose predecessors of the same parity are through. */
  lemma BlockMoves(job: Job, s: State, k: nat) returns (p: nat)
    requires Inv(job, s) && k < job.blocks && Called(s, k, 2) && !CallbackDone(job, s, k)
    requires k >= 2 ==> CallbackDone(job, s, k - 2)
    ensures Enabled(job, s, ActionOf(p))
  {
    hide InPlace;
    assert InOrder(job, s, k);
    if s.kpos[k] < job.size {
      p := 3 * k + 1;
    } else if s.rpos[k] < job.size {
      p := 3 * k + 2;
    } else {
      p := 3 * k + 3;
    }
    ActionIs(k);
  }

  lemma ActionIs(k: nat)
    ensures ActionOf(3 * k + 1) == Kernel(k) && ActionOf(3 * k + 2) == Read(k) && ActionOf(3 * k + 3) == Callback(k)
  {
  }

  /** The first of blocks k..m whose callback is not done. */
  lemma {:induction false} FirstOpen(job: Job, s: State, k: nat, m: nat) returns (f: nat)
    requires k < m && |s.cpos| == job.blocks >= m && !CallbackDone(job, s, m - 1)
    requires forall l: nat :: l < k ==> CallbackDone(job, s, l)
    ensures f < m && !CallbackDone(job, s, f) && forall l: nat :: l < f ==> CallbackDone(job, s, l)
    decreases m - k
  {
    if !CallbackDone(job, s, k) {
      f := k;
    } else {
      f := FirstOpen(job, s, k + 1, m);
    }
  }

  lemma CallbackMeansRead(job: Job, s: State, k: nat)
    requires Inv(job, s) && CallbackDone(job, s, k)
    ensures ReadDone(job, s, k)
  {
    assert InOrder(job, s, k);
  }

  /** Nothing is ever stuck: as long as a call or a callback is missing, something can move. */
  lemma Moves(job: Job, s: State) returns (p: nat)
    requires Inv(job, s) && !AllDone(job, s)
    ensures Enabled(job, s, ActionOf(p))
  {
    hide InPlace, Place;
    var q := s.queued / 3;
    if s.queued < 3 * job.blocks && (s.queued % 3 == 0 && q >= 2 ==> ReadDone(job, s, q - 2)) {
      p := 0;
    } else if s.queued < 3 * job.blocks {
      if !CallbackDone(job, s, q - 2) {
        var f := FirstOpen(job, s, 0, q - 1);
        p := BlockMoves(job, s, f);
      } else {
        CallbackMeansRead(job, s, q - 2);
        assert false;
      }
    } else {
      var k: nat :| k < job.blocks && !CallbackDone(job, s, k);
      var f := FirstOpen(job, s, 0, k + 1);
      p := BlockMoves(job, s, f);
    }
  }

  lemma DoneIsQuiet(job: Job, s: State)
    requires Inv(job, s) && AllDone(job, s)
    ensures Quiet(AsSystem(job), s)
  {
    hide InPlace, Place;
    forall p: nat
      ensures !Enabled(job, s, ActionOf(p))
    {
      match ActionOf(p)
      case Call =>
      case Kernel(k) => DoneBlock(job, s, k);
      case Read(k) => DoneBlock(job, s, k);
      case Callback(k) => DoneBlock(job, s, k);
    }
  }

  lemma DoneBlock(job: Job, s: State, k: nat)
    requires Inv(job, s) && AllDone(job, s)
    ensures k < job.blocks ==> s.kpos[k] == s.rpos[k] == s.cpos[k] == job.size
  {
    if k < job.blocks {
      assert InOrder(job, s, k) && CallbackDone(job, s, k);
    }
  }

  /**
    A run can stop exactly when every callback has run, and then each kernel's output is at its block of the result.
  */
  lemma StopsWithAllInPlace(job: Job, s: State, n: nat, t: State)
    requires Start(job, s) && Reaches(AsSystem(job), s, n, t)
    ensures Quiet(AsSystem(job), t) <==> AllDone(job, t)
    ensures AllDone(job, t) ==> forall k: nat :: k < job.blocks ==> OutBlock(job, t, k) == job.result[k]
  {
    hide Inv, Enabled, CallbackDone, OutBlock;
    StartInv(job, s);
    RunInv(job, s, n, t);
    if AllDone(job, t) {
      DoneIsQuiet(job, t);
      forall k: nat | k < job.blocks
        ensures OutBlock(job, t, k) == job.result[k]
      {
        CopiedBlock(job, t, k);
      }
    } else {
      var p := Moves(job, t);
      assert AsSystem(job).enabled(t, p);
    }
  }

  // ----- what waiting for the command queue is worth -----

  /** clFinish has returned: all calls made, all kernels and read-backs complete. Callbacks are no commands. */
  ghost predicate QueueFinished(job: Job, s: State) {
    s.queued == 3 * job.blocks && forall k: nat :: k < job.blocks ==> KernelDone(job, s, k) && ReadDone(job, s, k)
  }

  /** What the callback of block k has not copied yet happens to be in the result array already. */
  ghost predicate RestAlreadyThere(job: Job, s: State, k: nat)
    requires Shape(job, s) && k < job.blocks
  {
    forall i: nat :: s.cpos[k] <= i < job.size ==> WordAlreadyThere(job, k, i)
  }

  predicate WordAlreadyThere(job: Job, k: nat, i: nat)
    requires ValidJob(job) && k < job.blocks && i < job.size
  {
    Place(job, k, i) < |job.before| && job.before[Place(job, k, i)] == job.result[k][i]
  }

  /** A block of the result array is right exactly when the words still to be copied were right before. */
  lemma BlockRightExactly(job: Job, s: State, k: nat)
    requires Inv(job, s) && k < job.blocks
    ensures OutBlock(job, s, k) == job.result[k] <==> RestAlreadyThere(job, s, k)
  {
    hide InOrder;
    PlaceInside(job, k, job.size - 1);
    var at := Place(job, k, 0);
    var now := s.out[at..at + job.size];
    forall i | 0 <= i < job.size
      ensures now[i] == job.result[k][i] <==> (i < s.cpos[k] || WordAlreadyThere(job, k, i))
    {
      PlaceInside(job, k, i);
      assert Place(job, k, i) == at + i;
      assert InPlace(job, s, k, i);
    }
    hide InPlace, Inv;
    assert OutBlock(job, s, k) == now;
    if RestAlreadyThere(job, s, k) {
      assert now == job.result[k];
    }
  }

  /**
    By then all blocks but the last two are in place. The whole result is right exactly when the words
    that the last two callbacks have still to copy were right before, which one cannot count on.
  */
  lemma AtFinish(job: Job, s: State, n: nat, t: State)
    requires Start(job, s) && Reaches(AsSystem(job), s, n, t) && QueueFinished(job, t)
    ensures Shape(job, t)
    ensures forall k: nat :: k + 2 < job.blocks ==> OutBlock(job, t, k) == job.result[k]
    ensures (forall k: nat :: k < job.blocks ==> OutBlock(job, t, k) == job.result[k])
       <==> forall k: nat :: job.blocks - 2 <= k < job.blocks ==> RestAlreadyThere(job, t, k)
    ensures AllDone(job, t) <==> forall k: nat :: job.blocks - 2 <= k < job.blocks ==> CallbackDone(job, t, k)
  {
    hide OutBlock, InPlace, Step, Enabled, RestAlreadyThere, Place;
    StartInv(job, s);
    RunInv(job, s, n, t);
    forall k: nat | k + 2 < job.blocks
      ensures CallbackDone(job, t, k) && OutBlock(job, t, k) == job.result[k]
    {
      assert InOrder(job, t, k + 2) && ReadDone(job, t, k + 2);
      CopiedBlock(job, t, k);
    }
    forall k: nat | k < job.blocks
      ensures OutBlock(job, t, k) == job.result[k] <==> RestAlreadyThere(job, t, k)
    {
      BlockRightExactly(job, t, k);
    }
  }

  // ----- every run is finite -----

  function Total(xs: seq<nat>): nat {
    if xs == [] then 0 else Total(xs[..|xs| - 1]) + xs[|xs| - 1]
  }

  lemma {:induction false} TotalStep(xs: seq<nat>, k: nat)
    requires k < |xs|
    ensures Total(xs[k := xs[k] + 1]) == Total(xs) + 1
    decreases |xs|
  {
    var n := |xs| - 1;
    var ys := xs[k := xs[k] + 1];
    if k < n {
      TotalStep(xs[..n], k);
      assert ys[..n] == xs[..n][k := xs[..n][k] + 1];
    } else {
      assert ys[..n] == xs[..n];
    }
  }

  lemma {:induction false} TotalBound(xs: seq<nat>, m: nat)
    requires forall k :: 0 <= k < |xs| ==> xs[k] <= m
    ensures Total(xs) <= Product(|xs|, m)
  {
    if xs != [] {
      TotalBound(xs[..|xs| - 1], m);
      ProductStep(|xs| - 1, m);
    }
  }

  lemma {:induction false} TotalNone(xs: seq<nat>)
    requires forall k :: 0 <= k < |xs| ==> xs[k] == 0
    ensures Total(xs) == 0
  {
    if xs != [] {
      TotalNone(xs[..|xs| - 1]);
    }
  }

  /** Calls made and words written so far. */
  function Work(s: State): nat {
    s.queued + Total(s.kpos) + Total(s.rpos) + Total(s.cpos)
  }

  lemma StepWorks(job: Job, s: State, a: Action)
    requires Enabled(job, s, a)
    ensures Work(Step(job, s, a)) == Work(s) + 1
  {
    hide Place, ReadDone, KernelDone, CallbackDone, Called;
    match a
    case Call =>
    case Kernel(k) => TotalStep(s.kpos, k);
    case Read(k) => TotalStep(s.rpos, k);
    case Callback(k) => TotalStep(s.cpos, k);
  }

  function AllWork(job: Job): nat {
    3 * job.blocks + 3 * Product(job.blocks, job.size)
  }

  lemma WorkBound(job: Job, s: State)
    requires Inv(job, s)
    ensures Work(s) <= AllWork(job)
  {
    TotalBound(s.kpos, job.size);
    TotalBound(s.rpos, job.size);
    TotalBound(s.cpos, job.size);
  }

  lemma {:induction false} RunWorks(job: Job, s: State, n: nat, t: State)
    requires Reaches(AsSystem(job), s, n, t)
    ensures Work(t) == Work(s) + n
    decreases n
  {
    hide Step, Enabled, Work;
    if n > 0 {
      var p: nat :| AsSystem(job).enabled(s, p) && Reaches(AsSystem(job), AsSystem(job).step(s, p), n - 1, t);
      StepWorks(job, s, ActionOf(p));
      RunWorks(job, Step(job, s, ActionOf(p)), n - 1, t);
    }
  }

  /** No schedule can go on for longer than there are calls to make and words to write. */
  lemma RunsEnd(job: Job, s: State, n: nat, t: State)
    requires Start(job, s) && Reaches(AsSystem(job), s, n, t)
    ensures n <= AllWork(job)
  {
    StartInv(job, s);
    RunInv(job, s, n, t);
    WorkBound(job, t);
    RunWorks(job, s, n, t);
  }

  // ----- a run in which the queue finishes before the last callbacks -----

  /** The callbacks of the last two blocks have not begun. */
  ghost predicate Lagging(job: Job, s: State) {
    |s.cpos| == job.blocks && forall k: nat :: job.blocks - 2 <= k < job.blocks ==> s.cpos[k] == 0
  }

  predicate LastCallback(job: Job, a: Action) {
    a.Callback? && a.k + 2 >= job.blocks
  }

  /** All that the command queue needs of block k. */
  predicate Through(job: Job, s: State, k: nat) {
    ReadDone(job, s, k) && (k + 2 < job.blocks ==> CallbackDone(job, s, k))
  }

  lemma {:induction false} FirstNotThrough(job: Job, s: State, k: nat, m: nat) returns (f: nat)
    requires k < m && !Through(job, s, m - 1)
    requires forall l: nat :: l < k ==> Through(job, s, l)
    ensures f < m && !Through(job, s, f) && forall l: nat :: l < f ==> Through(job, s, l)
    decreases m - k
  {
    if !Through(job, s, k) {
      f := k;
    } else {
      f := FirstNotThrough(job, s, k + 1, m);
    }
  }

  lemma CallsOn(job: Job, s: State, f: nat)
    requires Inv(job, s) && f <= job.blocks && forall l: nat :: l < f ==> Through(job, s, l)
    requires s.queued < 3 * job.blocks && s.queued <= 3 * f + 2
    ensures Enabled(job, s, Call)
  {
    hide InPlace, InOrder, Place;
    if s.queued >= 6 {
      assert s.queued / 3 - 2 < f;
      assert Through(job, s, s.queued / 3 - 2);
    }
  }

  lemma BlockMovesOn(job: Job, s: State, f: nat) returns (p: nat)
    requires Inv(job, s) && f < job.blocks && !Through(job, s, f) && Called(s, f, 2)
    requires forall l: nat :: l < f ==> Through(job, s, l)
    ensures Enabled(job, s, ActionOf(p)) && !LastCallback(job, ActionOf(p))
  {
    hide InPlace, Place;
    assert InOrder(job, s, f);
    assert f >= 2 ==> Through(job, s, f - 2);
    ActionIs(f);
    p := if s.kpos[f] < job.size then 3 * f + 1 else if s.rpos[f] < job.size then 3 * f + 2 else 3 * f + 3;
  }

  /** Until the queue has finished, something other than the last two callbacks can move. */
  lemma MovesWithoutLast(job: Job, s: State) returns (p: nat)
    requires Inv(job, s) && !QueueFinished(job, s)
    ensures Enabled(job, s, ActionOf(p)) && !LastCallback(job, ActionOf(p))
  {
    hide InPlace, Place, Enabled, Through;
    if k: nat :| k < job.blocks && !Through(job, s, k) {
      var f := FirstNotThrough(job, s, 0, k + 1);
      if Called(s, f, 2) {
        p := BlockMovesOn(job, s, f);
      } else {
        CallsOn(job, s, f);
        p := 0;
      }
    } else {
      ThroughIsFinished(job, s);
      CallsOn(job, s, job.blocks);
      p := 0;
    }
  }

  lemma ThroughIsFinished(job: Job, s: State)
    requires Inv(job, s) && !QueueFinished(job, s) && forall k: nat :: k < job.blocks ==> Through(job, s, k)
    ensures s.queued < 3 * job.blocks
  {
    hide InPlace, Place;
    forall k: nat | k < job.blocks
      ensures KernelDone(job, s, k) && ReadDone(job, s, k)
    {
      assert InOrder(job, s, k) && Through(job, s, k);
    }
  }

  lemma StillLagging(job: Job, s: State, a: Action)
    requires Lagging(job, s) && Enabled(job, s, a) && !LastCallback(job, a)
    ensures Lagging(job, Step(job, s, a))
  {
    hide Place;
  }

  /** From every lagging state the queue can finish without the last two callbacks. */
  lemma {:induction false} FinishLagging(job: Job, s: State, n: nat, t: State) returns (m: nat, u: State)
    requires Inv(job, t) && Lagging(job, t) && Reaches(AsSystem(job), s, n, t)
    ensures Inv(job, u) && Lagging(job, u) && Reaches(AsSystem(job), s, m, u) && QueueFinished(job, u)
    decreases AllWork(job) - Work(t)
  {
    hide Inv, Enabled, Step, Lagging, Work, QueueFinished, AllWork;
    if QueueFinished(job, t) {
      m, u := n, t;
    } else {
      var p := MovesWithoutLast(job, t);
      var a := ActionOf(p);
      StepInv(job, t, a);
      StillLagging(job, t, a);
      StepWorks(job, t, a);
      WorkBound(job, Step(job, t, a));
      One(AsSystem(job), t, p);
      Append(AsSystem(job), s, n, t, 1, Step(job, t, a));
      m, u := FinishLagging(job, s, n + 1, Step(job, t, a));
    }
  }

  /**
    Waiting for the queue alone is not enough, whatever the number of blocks: some run has all commands
    complete and the last two blocks of the result array still as they were before.
  */
  lemma QueueFinishesFirst(job: Job, s: State) returns (n: nat, t: State)
    requires Start(job, s)
    ensures Reaches(AsSystem(job), s, n, t) && QueueFinished(job, t)
    ensures forall k: nat :: job.blocks - 2 <= k < job.blocks ==> OutBlock(job, t, k) == OutBlock(job, s, k)
  {
    hide Inv, QueueFinished, OutBlock, Enabled;
    StartInv(job, s);
    n, t := FinishLagging(job, s, 0, s);
    forall k: nat | job.blocks - 2 <= k < job.blocks
      ensures OutBlock(job, t, k) == OutBlock(job, s, k)
    {
      CopiedBlock(job, t, k);
      SameOut(job, t.(out := job.before), s, k);
    }
  }

  lemma SameOut(job: Job, s: State, t: State, k: nat)
    requires s.out == t.out
    ensures OutBlock(job, s, k) == OutBlock(job, t, k)
  {
  }
}
