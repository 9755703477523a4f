/**
  The buffer ring between host and kernel: two groups of buffers, commands on a queue that completes
  them in any order, results read back a group at a time while later blocks are in flight.
*/
module Ring {
  import opened Machine

  /** Where a buffer's block is: not in flight, or past none, one, two or all three of its commands. */
  datatype Phase = Idle | Queued | Written | Computed | Finished

  /**
    A block in flight is intact where the next command will look for it, and a result is the kernel's on
    that block. A kernel that reads the mapped host buffer itself has no write command in front of it.
  */
  ghost predicate BufferOk(kernel: seq<byte> --> int, phase: Phase, loaded: seq<byte>, inp: seq<byte>,
                           devInp: seq<byte>, devOut: int, out: int) {
    phase != Idle ==>
      && kernel.requires(loaded)
      && (phase == Queued ==> inp == loaded)
      && (phase == Written ==> devInp == loaded)
      && (phase == Computed ==> devOut == kernel(loaded))
      && (phase == Finished ==> out == kernel(loaded))
  }

  /** Calls from number `from` on, n of them, all succeed. */
  predicate Accepted(accepts: nat -> bool, from: nat, n: nat) {
    n == 0 || (Accepted(accepts, from, n - 1) && accepts(from + n - 1))
  }

  lemma {:induction false} AcceptedSplit(accepts: nat -> bool, from: nat, m: nat, n: nat)
    ensures Accepted(accepts, from, m + n) <==> Accepted(accepts, from, m) && Accepted(accepts, from + m, n)
    decreases n
  {
    if n > 0 {
      AcceptedSplit(accepts, from, m, n - 1);
    }
  }

  /** In plain terms. */
  lemma {:induction false} AcceptedMeans(accepts: nat -> bool, n: nat)
    ensures Accepted(accepts, 0, n) <==> forall c: nat :: c < n ==> accepts(c)
  {
    if n > 0 {
      AcceptedMeans(accepts, n - 1);
    }
  }

  lemma CallByCall(accepts: nat -> bool, c: nat)
    ensures Accepted(accepts, c, 0)
    ensures Accepted(accepts, c, 1) <==> accepts(c)
    ensures Accepted(accepts, c, 2) <==> accepts(c) && accepts(c + 1)
    ensures Accepted(accepts, c, 3) <==> accepts(c) && accepts(c + 1) && accepts(c + 2)
    ensures Accepted(accepts, c, 4) <==> accepts(c) && accepts(c + 1) && accepts(c + 2) && accepts(c + 3)
  {
    assert Accepted(accepts, c, 2) <==> Accepted(accepts, c, 1) && accepts(c + 1);
    assert Accepted(accepts, c, 3) <==> Accepted(accepts, c, 2) && accepts(c + 2);
    assert Accepted(accepts, c, 4) <==> Accepted(accepts, c, 3) && accepts(c + 3);
  }

  /**
    The OpenCL calls that enqueue n blocks: write, kernel arguments, kernel and read each; no write with mapped
    buffers.
  */
  function CallsFor(mapped: bool, n: nat): nat {
    if mapped then 3 * n else 4 * n
  }

  /** How far a buffer's queued commands take it when its call number `made` has failed. */
  function LeftBehind(mapped: bool, made: nat): Phase {
    if made == CallsFor(mapped, 1) then Computed else if mapped || made == 1 then Idle else Written
  }

  /**
    The command queue: per buffer, write to the device, then the kernel, then read back; in any order
    across buffers. With mapped buffers there is no write, and the kernel reads what the host filled.
  */
  class Device {
    const bufs: nat
    const mapped: bool
    const kernel: seq<byte> --> int
    /** The queue's answers to the calls, in the order in which they are made. */
    const accepts: nat -> bool
    var calls: nat
    var pInp: seq<seq<byte>>
    var devInp: seq<seq<byte>>
    var devOut: seq<int>
    var pOut: seq<int>
    var phase: seq<Phase>
    /** How far the commands that were queued for a buffer take it: to Finished, unless an enqueue failed in between. */
    var goal: seq<Phase>
    /** The block that each buffer was last filled with. */
    ghost var loaded: seq<seq<byte>>

    ghost predicate Valid()
      reads this
    {
      && |pInp| == |devInp| == |devOut| == |pOut| == |phase| == |goal| == |loaded| == bufs
      && forall i :: 0 <= i < bufs ==> BufferOk(kernel, phase[i], loaded[i], pInp[i], devInp[i], devOut[i], pOut[i])
    }

    constructor (bufs: nat, mapped: bool, kernel: seq<byte> --> int, accepts: nat -> bool)
      ensures Valid() && this.bufs == bufs && this.mapped == mapped && this.kernel == kernel
      ensures this.accepts == accepts && calls == 0
      ensures forall i :: 0 <= i < bufs ==> phase[i] == Idle
    {
      this.bufs, this.mapped, this.kernel, this.accepts := bufs, mapped, kernel, accepts;
      calls := 0;
      pInp, devInp := seq(bufs, _ => []), seq(bufs, _ => []);
      devOut, pOut := seq(bufs, _ => 0), seq(bufs, _ => 0);
      phase, goal := seq(bufs, _ => Idle), seq(bufs, _ => Finished);
      loaded := seq(bufs, _ => []);
    }

    /** The host fills an input buffer; allowed only while nothing of the buffer is in flight or uncollected. */
    method Fill(i: nat, block: seq<byte>)
      requires Valid() && i < bufs && phase[i] == Idle
      modifies `pInp
      ensures Valid() && pInp == old(pInp)[i := block]
    {
      pInp := pInp[i := block];
    }

    /** One call to the queue. */
    method Call() returns (ok: bool)
      modifies `calls
      ensures ok == accepts(old(calls)) && calls == old(calls) + 1
    {
      ok := accepts(calls);
      calls := calls + 1;
    }

    /** The commands queued for buffer i now take its block up to g. */
    method Queue(i: nat, g: Phase)
      requires Valid() && i < bufs && phase[i] in {Idle, Queued} && kernel.requires(pInp[i])
      modifies `phase, `goal, `loaded
      ensures Valid()
      ensures phase == old(phase)[i := Queued] && goal == old(goal)[i := g] && loaded == old(loaded)[i := pInp[i]]
    {
      phase, goal := phase[i := Queued], goal[i := g];
      loaded := loaded[i := pInp[i]];
    }

    /**
      Queues write, kernel and read for a buffer, or with a mapped buffer kernel and read, and stops at the
      first call that fails. What was queued before it stays queued, and the device may still carry it out.
    */
    method EnqCompute(i: nat) returns (ok: bool)
      requires Valid() && i < bufs && phase[i] == Idle && kernel.requires(pInp[i])
      modifies `phase, `goal, `loaded, `calls
      ensures Valid()
      ensures ok <==> Accepted(accepts, old(calls), CallsFor(mapped, 1))
      ensures ok ==> calls == old(calls) + CallsFor(mapped, 1)
      ensures ok ==> phase == old(phase)[i := Queued] && goal == old(goal)[i := Finished]
      ensures ok ==> loaded == old(loaded)[i := pInp[i]]
      ensures !ok ==> old(calls) < calls && Accepted(accepts, old(calls), calls - 1 - old(calls)) && !accepts(calls - 1)
      ensures !ok ==>
                var left := LeftBehind(mapped, calls - old(calls));
                if left == Idle then phase[i] == Idle else phase[i] == Queued && goal[i] == left
      ensures !ok && phase[i] != Idle ==> goal[i] != Finished
      ensures !ok ==> phase == old(phase)[i := phase[i]] && goal == old(goal)[i := goal[i]]
      ensures !ok ==> loaded == old(loaded)[i := loaded[i]]
    {
      CallByCall(accepts, calls);
      hide Accepted, BufferOk;
      var queued := Idle;
      ok := true;
      if !mapped {
        ok := Call();
        queued := if ok then Written else Idle;
      }
      if ok {
        ok := Call();
      }
      if ok {
        ok := Call();
        queued := if ok then Computed else queued;
      }
      if ok {
        ok := Call();
        queued := if ok then Finished else queued;
      }
      if queued != Idle {
        Queue(i, queued);
      }
    }

    /** A command of buffer i is waiting to be carried out. */
    predicate Pending(i: int)
      reads this
    {
      0 <= i < |phase| && i < |goal| && phase[i] in {Queued, Written, Computed} && phase[i] != goal[i]
    }

    /** What the device may do at any time: nothing changes about which blocks are in flight. */
    twostate predicate Progressed()
      reads this
    {
      && Valid() && loaded == old(loaded) && goal == old(goal) && pInp == old(pInp) && calls == old(calls)
      && |old(phase)| == bufs
      && forall i :: 0 <= i < bufs ==>
           (phase[i] == Idle <==> old(phase[i]) == Idle) && (old(phase[i]) == Finished ==> phase[i] == Finished)
    }

    /** One command of buffer i completes. */
    method CompleteOne(i: nat)
      requires Valid() && Pending(i)
      modifies this
      ensures Progressed()
      ensures Rank(phase[i]) < old(Rank(phase[i]))
    {
      assert BufferOk(kernel, phase[i], loaded[i], pInp[i], devInp[i], devOut[i], pOut[i]);
      match phase[i]
      case Queued =>
        if mapped {
          devOut := devOut[i := kernel(pInp[i])];
          phase := phase[i := Computed];
        } else {
          devInp := devInp[i := pInp[i]];
          phase := phase[i := Written];
        }
      case Written =>
        devOut := devOut[i := kernel(devInp[i])];
        phase := phase[i := Computed];
      case Computed =>
        pOut := pOut[i := devOut[i]];
        phase := phase[i := Finished];
    }

    static function Rank(p: Phase): nat {
      match p
      case Idle => 0
      case Queued => 3
      case Written => 2
      case Computed => 1
      case Finished => 0
    }

    /** Any number of commands complete, in any order. */
    method Progress()
      requires Valid()
      modifies this
      ensures Progressed()
    {
      var n: int := *;
      while n > 0
        invariant Progressed()
      {
        var i: int := *;
        if Pending(i) {
          CompleteOne(i);
        }
        n := n - 1;
      }
    }

    /** The host fills a free buffer while the device goes on. */
    method FillMeanwhile(i: nat, block: seq<byte>)
      requires Valid() && i < bufs && phase[i] == Idle
      modifies this
      ensures Valid() && loaded == old(loaded) && goal == old(goal) && calls == old(calls) && pInp[i] == block
      ensures forall k :: 0 <= k < bufs ==> (phase[k] == Idle <==> old(phase[k]) == Idle)
    {
      Progress();
      Fill(i, block);
      Progress();
    }

    /** clWaitForEvents on the read events of `count` buffers from `first` on. */
    method WaitFor(first: nat, count: nat)
      requires Valid() && first + count <= bufs
      requires forall i :: first <= i < first + count ==> phase[i] != Idle && goal[i] == Finished
      modifies this
      ensures Progressed() && forall i :: first <= i < first + count ==> phase[i] == Finished
    {
      Progress();
      for k := first to first + count
        invariant Progressed() && forall i :: first <= i < k ==> phase[i] == Finished
      {
        while phase[k] != Finished
          invariant Progressed() && forall i :: first <= i < k ==> phase[i] == Finished
          decreases Rank(phase[k])
        {
          CompleteOne(k);
        }
        Progress();
      }
    }

    /** Reads a finished result out of its buffer and gives the buffer free. */
    method Collect(i: nat) returns (curSum: int)
      requires Valid() && i < bufs && phase[i] == Finished
      modifies `phase
      ensures Valid() && phase == old(phase)[i := Idle]
      ensures kernel.requires(loaded[i]) && curSum == kernel(loaded[i])
    {
      assert BufferOk(kernel, phase[i], loaded[i], pInp[i], devInp[i], devOut[i], pOut[i]);
      curSum := pOut[i];
      phase := phase[i := Idle];
    }
  }

  // ----- the host side -----

  function SumInts(xs: seq<int>): int {
    if xs == [] then 0 else SumInts(xs[..|xs| - 1]) + xs[|xs| - 1]
  }

  lemma SumIntsStep(xs: seq<int>, i: nat)
    requires i < |xs|
    ensures SumInts(xs[..i + 1]) == SumInts(xs[..i]) + xs[i]
  {
    assert xs[..i + 1][..i] == xs[..i];
  }

  lemma SumIntsAppend(xs: seq<int>, x: int)
    ensures SumInts(xs + [x]) == SumInts(xs) + x
  {
    assert (xs + [x])[..|xs|] == xs;
  }

  /** Within a window of 2 * group blocks every block has a buffer of its own. */
  lemma OwnSlot(a: nat, b: nat, bufs: nat)
    requires a < b < a + bufs
    ensures a % bufs != b % bufs
  {
    if a % bufs == b % bufs {
      var qa, qb := a / bufs, b / bufs;
      assert a == qa * bufs + a % bufs && b == qb * bufs + b % bufs;
      if qa < qb {
        ProductGap(qa, qb, bufs);
      } else if qb < qa {
        ProductGap(qb, qa, bufs);
      }
    }
  }

  /**
    The group whose turn it is when blkId is a multiple of the group size: the buffers of the oldest group of blocks.
  */
  lemma GroupSlots(blkId: nat, group: nat, k: nat)
    requires group > 0 && blkId % group == 0 && blkId >= 2 * group && k < group
    ensures ((blkId - 2 * group) / group) % 2 * group + k == (blkId - 2 * group + k) % (2 * group)
  {
    var first := blkId - 2 * group;
    var q := blkId / group - 2;
    assert first == q * group;
    DivideUnique(first, group, q, 0);
    var h, r := q / 2, q % 2;
    assert q == h * 2 + r;
    Distribute(h * 2, r, group);
    Associate(h, 2, group);
    if r == 0 {
      DivideUnique(first + k, 2 * group, h, k);
    } else {
      DivideUnique(first + k, 2 * group, h, group + k);
    }
  }

  /** Where the oldest group begins when it is time to collect it. */
  lemma OldestGroup(blkId: nat, done: nat, group: nat)
    requires group > 0 && done % group == 0 && done <= blkId <= done + 2 * group
    requires done > 0 ==> blkId > done + group
    ensures blkId % group == 0 && blkId >= 2 * group ==> done == blkId - 2 * group
    ensures !(blkId % group == 0 && blkId >= 2 * group) ==> blkId < done + 2 * group
  {
    var a, b := done / group, blkId / group;
    Whole(done, group);
    if blkId % group == 0 {
      Whole(blkId, group);
      if b > a + 2 {
        ProductGap(a + 2, b, group);
      } else if b < a + 2 {
        ProductGap(b, a + 2, group);
        if b < a + 1 {
          ProductGap(b, a + 1, group);
        }
      }
    } else if blkId == done + 2 * group {
      DivideUnique(blkId, group, a + 2, 0);
    }
  }

  /** Buffer base + k is the one of block first + k. */
  predicate GroupSlot(base: nat, first: nat, bufs: nat, k: nat)
    requires bufs > 0
  {
    base + k == (first + k) % bufs
  }

  /** Some block of the window uses buffer i. */
  ghost predicate Occupied(i: int, from: nat, until: nat, bufs: nat)
    requires bufs > 0
  {
    exists b: nat :: from <= b < until && b % bufs == i
  }

  ghost predicate InFlight(dev: Device, i: int, result: int)
    reads dev
  {
    && 0 <= i < |dev.phase| && i < |dev.loaded| && i < |dev.goal| && dev.phase[i] != Idle && dev.goal[i] == Finished
    && dev.kernel.requires(dev.loaded[i]) && dev.kernel(dev.loaded[i]) == result
  }

  /** The driver's loop state: how many blocks were submitted, how many results were added, and the sum. */
  class Host {
    const group: nat
    const dev: Device
    var blkId: nat
    var blkIdDone: nat
    var q6Sum: int
    /** The kernel's result for each submitted block. */
    ghost var results: seq<int>
    /** An enqueue failed, maybe with some of its commands queued. */
    ghost var failed: bool

    constructor (group: nat, mapped: bool, kernel: seq<byte> --> int, accepts: nat -> bool)
      requires group > 0
      ensures Valid() && InStep() && Answered() && fresh(dev) && this.group == group && dev.kernel == kernel
      ensures dev.mapped == mapped && dev.accepts == accepts
      ensures blkId == 0 && blkIdDone == 0 && results == [] && !failed
    {
      this.group := group;
      dev := new Device(2 * group, mapped, kernel, accepts);
      blkId, blkIdDone, q6Sum, results, failed := 0, 0, 0, [], false;
    }

    /**
      Blocks blkIdDone..blkId are in flight, at most 2 * group of them, each in the buffer of its number; all other
      buffers are free, but for one left by a failed enqueue.
    */
    ghost predicate Valid()
      reads this, dev
    {
      && group > 0 && dev.bufs == 2 * group && dev.Valid()
      && |results| == blkId && blkIdDone <= blkId <= blkIdDone + 2 * group
      && q6Sum == Int64(SumInts(results[..blkIdDone]))
      && (forall b: nat :: blkIdDone <= b < blkId ==> InFlight(dev, b % dev.bufs, results[b]))
      && (forall i :: 0 <= i < dev.bufs && dev.phase[i] != Idle ==>
            Occupied(i, blkIdDone, blkId, dev.bufs) || (failed && dev.goal[i] != Finished))
    }

    /** While no call has failed, every block has taken its calls, and all of them succeeded. */
    ghost predicate Answered()
      reads this, dev
    {
      !failed ==> dev.calls == CallsFor(dev.mapped, blkId) && Accepted(dev.accepts, 0, dev.calls)
    }

    lemma AllAnswered()
      requires Answered() && !failed
      ensures Accepted(dev.accepts, 0, CallsFor(dev.mapped, blkId))
    {
    }

    /** Whole groups have been collected, and a group is left outstanding behind them. */
    ghost predicate InStep()
      reads this
    {
      group > 0 && blkIdDone % group == 0 && (blkIdDone > 0 ==> blkId > blkIdDone + group)
    }

    /** Adds the result of the oldest outstanding block, once its buffer has finished. */
    method AddOldest(i: nat)
      requires Valid() && blkIdDone < blkId && i == blkIdDone % dev.bufs && dev.phase[i] == Finished
      modifies this`q6Sum, this`blkIdDone, dev`phase
      ensures Valid() && blkIdDone == old(blkIdDone) + 1
      ensures dev.phase == old(dev.phase)[i := Idle]
    {
      hide Int64, SumInts;
      assert InFlight(dev, i, results[blkIdDone]);
      ghost var d := blkIdDone;
      var curSum := dev.Collect(i);
      SumIntsStep(results, d);
      Int64Add(SumInts(results[..d]), curSum);
      q6Sum := Int64(q6Sum + curSum);
      forall b: nat | d < b < blkId
        ensures InFlight(dev, b % dev.bufs, results[b])
      {
        OwnSlot(d, b, dev.bufs);
      }
      forall k | 0 <= k < dev.bufs && dev.phase[k] != Idle
        ensures Occupied(k, d + 1, blkId, dev.bufs) || (failed && dev.goal[k] != Finished)
      {
        if !(failed && dev.goal[k] != Finished) {
          var b: nat :| d <= b < blkId && b % dev.bufs == k;
        }
      }
      blkIdDone := blkIdDone + 1;
    }

    /** Waits for buffers of blocks in flight; the device may complete others meanwhile. */
    method WaitFor(first: nat, count: nat)
      requires Valid() && first + count <= dev.bufs
      requires forall i :: first <= i < first + count ==> dev.phase[i] != Idle && dev.goal[i] == Finished
      modifies dev
      ensures dev.calls == old(dev.calls)
      ensures Valid() && forall i :: first <= i < first + count ==> dev.phase[i] == Finished
    {
      dev.WaitFor(first, count);
      forall b: nat | blkIdDone <= b < blkId
        ensures InFlight(dev, b % dev.bufs, results[b])
      {
        assert old(InFlight(dev, b % dev.bufs, results[b]));
      }
    }

    /** Waits for a whole group of outstanding blocks, in buffers from `base` on, and adds their results. */
    method AddGroup(base: nat)
      requires Valid() && blkIdDone + group <= blkId && base + group <= dev.bufs
      requires forall k: nat :: k < group ==> GroupSlot(base, blkIdDone, dev.bufs, k)
      modifies this`q6Sum, this`blkIdDone, dev
      ensures Valid() && blkIdDone == old(blkIdDone) + group && dev.calls == old(dev.calls)
    {
      ghost var first := blkIdDone;
      forall i | base <= i < base + group
        ensures dev.phase[i] != Idle && dev.goal[i] == Finished
      {
        var k: nat := i - base;
        assert GroupSlot(base, first, dev.bufs, k);
        assert InFlight(dev, (first + k) % dev.bufs, results[first + k]);
      }
      WaitFor(base, group);
      for k := 0 to group
        invariant Valid() && blkIdDone == first + k && dev.calls == old(dev.calls)
        invariant forall i :: base + k <= i < base + group ==> dev.phase[i] == Finished
      {
        assert GroupSlot(base, first, dev.bufs, k);
        AddOldest(base + k);
      }
    }

    /** Before every group of blocks, when both groups are in flight: wait for the older one and add its results. */
    method CollectGroup()
      requires Valid() && InStep()
      modifies this`q6Sum, this`blkIdDone, dev
      ensures Valid() && blkId < blkIdDone + 2 * group && dev.calls == old(dev.calls)
      ensures blkIdDone % group == 0 && (blkIdDone > 0 ==> blkId >= blkIdDone + group)
      ensures old(Answered()) ==> Answered()
    {
      OldestGroup(blkId, blkIdDone, group);
      if blkId % group == 0 && blkId >= 2 * group {
        var j := ((blkId - 2 * group) / group) % 2;
        BaseFits(j, group);
        forall k: nat | k < group
          ensures GroupSlot(j * group, blkIdDone, dev.bufs, k)
        {
          GroupSlots(blkId, group, k);
        }
        NextGroup(blkIdDone, group);
        AddGroup(j * group);
      }
    }

    /** The buffer of the next block is free. */
    lemma SlotIsFree()
      requires Valid() && blkId < blkIdDone + 2 * group && !failed
      ensures dev.phase[blkId % dev.bufs] == Idle
    {
      hide Int64, SumInts, BufferOk, InFlight;
      var i := blkId % dev.bufs;
      if dev.phase[i] != Idle {
        var b: nat :| blkIdDone <= b < blkId && b % dev.bufs == i;
        OwnSlot(b, blkId, dev.bufs);
      }
    }

    /** What happens to the buffer of the next block leaves the blocks in flight alone. */
    twostate lemma OthersKept(i: nat)
      requires old(Valid()) && !old(failed) && blkId < blkIdDone + 2 * group && i == blkId % dev.bufs
      requires blkId == old(blkId) && blkIdDone == old(blkIdDone) && results == old(results)
      requires dev.Valid() && |old(dev.phase)| == |old(dev.loaded)| == |old(dev.goal)| == dev.bufs
      requires forall k :: 0 <= k < dev.bufs && k != i ==>
                 && dev.loaded[k] == old(dev.loaded[k]) && dev.goal[k] == old(dev.goal[k])
                 && (dev.phase[k] == Idle <==> old(dev.phase[k]) == Idle)
      ensures forall b: nat :: blkIdDone <= b < blkId ==> b % dev.bufs != i && InFlight(dev, b % dev.bufs, results[b])
      ensures forall k :: 0 <= k < dev.bufs && k != i && dev.phase[k] != Idle ==>
          Occupied(k, blkIdDone, blkId, dev.bufs)
    {
      hide Int64, SumInts, BufferOk;
      forall b: nat | blkIdDone <= b < blkId
        ensures b % dev.bufs != i && InFlight(dev, b % dev.bufs, results[b])
      {
        OwnSlot(b, blkId, dev.bufs);
        assert old(InFlight(dev, b % dev.bufs, results[b]));
      }
    }

    /**
      Fills the buffer whose turn it is and queues it, while the device goes on completing commands. A failing
      enqueue adds no block.
    */
    method Enqueue(block: seq<byte>) returns (ok: bool)
      requires Valid() && blkId < blkIdDone + 2 * group && dev.kernel.requires(block) && !failed
      modifies this`blkId, this`results, this`failed, dev
      ensures Valid()
      ensures ok <==> Accepted(dev.accepts, old(dev.calls), CallsFor(dev.mapped, 1))
      ensures ok ==> dev.calls == old(dev.calls) + CallsFor(dev.mapped, 1)
      ensures ok ==> blkId == old(blkId) + 1 && results == old(results) + [dev.kernel(block)]
      ensures !ok ==> blkId == old(blkId) && results == old(results)
      ensures failed == !ok
    {
      hide Int64, SumInts, BufferOk, Accepted, LeftBehind, CallsFor;
      var i := blkId % dev.bufs;
      SlotIsFree();
      dev.FillMeanwhile(i, block);
      ok := dev.EnqCompute(i);
      OthersKept(i);
      failed := !ok;
      ghost var n, before := blkId, results;
      if ok {
        results := results + [dev.kernel(block)];
        blkId := blkId + 1;
      }
      assert results[..blkIdDone] == before[..blkIdDone];
      forall k | 0 <= k < dev.bufs && dev.phase[k] != Idle
        ensures Occupied(k, blkIdDone, blkId, dev.bufs) || (failed && dev.goal[k] != Finished)
      {
        if k != i {
          var b: nat :| blkIdDone <= b < n && b % dev.bufs == k;
        } else if ok {
          assert n % dev.bufs == i;
        }
      }
    }

    /** The same while no call has failed: it succeeds exactly when the queue accepts the block's calls. */
    method Submit(block: seq<byte>) returns (ok: bool)
      requires Valid() && Answered() && blkId < blkIdDone + 2 * group && dev.kernel.requires(block) && !failed
      modifies this`blkId, this`results, this`failed, dev
      ensures Valid() && Answered()
      ensures ok <==> Accepted(dev.accepts, 0, CallsFor(dev.mapped, old(blkId) + 1))
      ensures ok ==> blkId == old(blkId) + 1 && results == old(results) + [dev.kernel(block)]
      ensures !ok ==> blkId == old(blkId) && results == old(results)
      ensures failed == !ok
    {
      hide Valid, Accepted;
      AcceptedSplit(dev.accepts, 0, dev.calls, CallsFor(dev.mapped, 1));
      ok := Enqueue(block);
    }

    /** Waits for the blocks still outstanding, oldest first. */
    method Drain()
      requires Valid()
      modifies this`q6Sum, this`blkIdDone, dev
      ensures Valid() && blkIdDone == blkId && q6Sum == Int64(SumInts(results))
    {
      while blkIdDone < blkId
        invariant Valid()
      {
        var i := blkIdDone % dev.bufs;
        assert InFlight(dev, i, results[blkIdDone]);
        WaitFor(i, 1);
        AddOldest(i);
      }
      assert results[..blkIdDone] == results;
    }
  }

  lemma BaseFits(j: nat, group: nat)
    requires j < 2
    ensures 0 <= j * group && j * group + group <= 2 * group
  {
  }

  lemma NextGroup(first: nat, group: nat)
    requires group > 0 && first % group == 0
    ensures (first + group) % group == 0
  {
    Whole(first, group);
    DivideUnique(first + group, group, first / group + 1, 0);
  }
}
