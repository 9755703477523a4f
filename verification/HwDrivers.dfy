/** The repacking hardware driver: blocks filled from the cursor go through the buffer ring to the kernel. */
module HwDrivers {
  import opened Machine
  import opened Tuples
  import opened Drivers
  import H = HeapPage
  import F = FlowWrap
  import P = Packer
  import R = Ring

  /** The device's kernel on blocks of `pages` pages, as a function; F.RunFlowWrap computes it. */
  function KernelOf(native: bool, pages: nat): (k: seq<byte> --> int)
    ensures forall block :: F.BlockOk(native, block, pages) ==>
        k.requires(block) && k(block) == Int64(F.BlockSum(native, block, pages))
  {
    block requires F.BlockOk(native, block, pages) => Int64(F.BlockSum(native, block, pages))
  }

  /** That is what the kernel's stages compute. */
  method Compute(native: bool, block: seq<byte>, numPu: nat, pagesPerPu: nat) returns (sum: int)
    requires numPu > 0 && F.BlockOk(native, block, Product(pagesPerPu, numPu))
    ensures sum == KernelOf(native, Product(pagesPerPu, numPu))(block)
  {
    hide F.BlockSum, Int64, F.BlockOk, Product;
    sum := F.RunFlowWrap(native, block, numPu, pagesPerPu);
  }

  lemma ResultsAdd(results: seq<int>, all: seq<seq<byte>>, taken: nat, rem: seq<seq<byte>>, n: nat, s: int)
    requires SumUpTo(Int64(R.SumInts(results)), all, taken) && rem == all[taken..] && n <= |rem|
    requires s == Int64(SumItems(rem[..n]))
    ensures SumUpTo(Int64(R.SumInts(results + [s])), all, taken + n)
  {
    hide SumItems, Int64;
    AddBlock(Int64(R.SumInts(results)), all, taken, rem, n, s);
    R.SumIntsAppend(results, s);
    Int64Add(R.SumInts(results), s);
  }

  /** The cursor has delivered the first nTups items, all of them packable, and has the others left. */
  ghost predicate PackedUpTo(rel: seq<seq<byte>>, st: P.FillState, all: seq<seq<byte>>, nTups: nat)
    reads st
  {
    && P.CursorOk(rel, st) && nTups <= |all|
    && P.Remaining(rel, st.blkNum, st.linNum) == all[nTups..]
    && P.Packable(all[nTups..]) == P.Packable(all) - nTups
  }

  /** Before the first block. */
  lemma NothingPacked(rel: seq<seq<byte>>, st: P.FillState)
    requires st.nBlks == |rel| && st.blkNum == 0 && st.linNum == 0
    ensures PackedUpTo(rel, st, AllItems(rel), 0) && SumUpTo(Int64(R.SumInts([])), AllItems(rel), 0)
  {
    hide SumItems, P.Packable, P.ItemsFrom, Int64, P.Remaining;
    SumNothing(AllItems(rel));
    NoResults();
    P.RemainingIs(rel, 0, 0);
  }

  /** How many blocks the driver fills for these items: up to the first whose last page stays empty. */
  function BlocksFor(items: seq<seq<byte>>, pages: nat): (n: nat)
    requires pages > 0
    ensures n > 0
    decreases |items|
  {
    LastPage(items, pages);
    if P.NextPack(P.AfterPacks(items, pages - 1)) == [] then 1 else 1 + BlocksFor(P.AfterPacks(items, pages), pages)
  }

  /** One turn of the loop: fills a block from the cursor and submits it. */
  method PackAndSubmit(rel: seq<seq<byte>>, pages: nat, st: P.FillState, blk: array<byte>, host: R.Host,
                       ghost all: seq<seq<byte>>, ghost nTups: nat)
    returns (bRealPages: bool, status: bool, ghost filled: nat)
    requires RelationOk(rel) && all == AllItems(rel) && pages > 0 && blk.Length == PAGE_SZ * pages
    requires PackedUpTo(rel, st, all, nTups)
    requires host.Valid() && host.Answered() && !host.failed && host.blkId < host.blkIdDone + 2 * host.group
    requires host.dev.kernel == KernelOf(false, pages) && !host.dev.mapped
    requires SumUpTo(Int64(R.SumInts(host.results)), all, nTups)
    modifies st, blk, host`blkId, host`results, host`failed, host.dev
    ensures host.Valid() && host.Answered() && PackedUpTo(rel, st, all, nTups + filled)
    ensures if bRealPages then filled > 0 else nTups + filled == P.Packable(all)
    ensures BlocksFor(all[nTups..], pages) == 1 + if bRealPages then BlocksFor(all[nTups + filled..], pages) else 0
    ensures host.failed == !status
    ensures status <==> R.Accepted(host.dev.accepts, 0, R.CallsFor(false, old(host.blkId) + 1))
    ensures !status ==> host.blkId == old(host.blkId)
    ensures status ==> host.blkId == old(host.blkId) + 1 && SumUpTo(Int64(R.SumInts(host.results)), all, nTups + filled)
  {
    hide ItemsOk, SumItems, P.BlockPacked, P.Packable, P.AfterPacks, F.BlockOk, F.BlockSum, P.RelationReadable, H.Fit;
    hide P.Remaining, Int64, R.SumInts;
    hide P.NextPack, P.ItemsFrom;
    ghost var rem, before := all[nTups..], host.results;
    BlockItemsOk(all, nTups, pages);
    bRealPages, filled := P.FillBlock(rel, blk, pages, st);
    LastPage(rem, pages);
    PackedBlock(blk[..], rem, pages);
    status := host.Submit(blk[..]);
    if status {
      ResultsAdd(before, all, nTups, rem, filled, KernelOf(false, pages)(blk[..]));
    }
  }

  /**
    The repacking driver: it succeeds exactly when the queue accepts the calls for all blocks, and then returns, for
    any completion order of the device, the sum over all delivered tuples, each counted once.
  */
  method RunHw(rel: seq<seq<byte>>, group: nat, pages: nat, accepts: nat -> bool) returns (status: bool, q6Sum: int)
    requires RelationOk(rel) && group > 0 && pages > 0
    ensures status <==> R.Accepted(accepts, 0, R.CallsFor(false, BlocksFor(AllItems(rel), pages)))
    ensures status ==> q6Sum == Int64(SumItems(Delivered(rel)))
  {
    hide ItemsOk, SumItems, P.Packable, P.RelationReadable, P.Remaining, P.ItemsFrom, Int64, R.SumInts;
    hide BlocksFor, R.Accepted, R.Host.Valid, R.Host.Answered;
    ghost var all := AllItems(rel);
    var st := new P.FillState(|rel|);
    var blk := new byte[PAGE_SZ * pages](_ => 0);
    var host := new R.Host(group, false, KernelOf(false, pages), accepts);
    ghost var nTups := 0;
    NothingPacked(rel, st);
    assert all[0..] == all;
    var bRealPages := true;
    status := true;
    while bRealPages
      invariant PackedUpTo(rel, st, all, nTups) && fresh(host) && fresh(host.dev) && status
      invariant host.Valid() && host.InStep() && host.Answered() && !host.failed
      invariant host.dev.kernel == KernelOf(false, pages) && !host.dev.mapped && host.dev.accepts == accepts
      invariant BlocksFor(all, pages) == host.blkId + if bRealPages then BlocksFor(all[nTups..], pages) else 0
      invariant SumUpTo(Int64(R.SumInts(host.results)), all, nTups)
      invariant !bRealPages ==> nTups == P.Packable(all)
      decreases |all| - nTups, bRealPages
    {
      host.CollectGroup();
      ghost var filled;
      bRealPages, status, filled := PackAndSubmit(rel, pages, st, blk, host, all, nTups);
      if !status {
        R.AcceptedSplit(accepts, 0, R.CallsFor(false, host.blkId + 1),
                        R.CallsFor(false, BlocksFor(all, pages) - host.blkId - 1));
        break;
      }
      nTups := nTups + filled;
    }
    if status {
      host.AllAnswered();
    }
    host.Drain();
    q6Sum := host.q6Sum;
  }

  lemma NoResults()
    ensures Int64(R.SumInts([])) == 0
  {
  }

  lemma PackedBlock(buf: seq<byte>, rem: seq<seq<byte>>, n: nat)
    requires |buf| == PAGE_SZ * n && P.BlockPacked(buf, rem, n) && |P.AfterPacks(rem, n)| <= |rem|
    requires ItemsOk(rem[..|rem| - |P.AfterPacks(rem, n)|])
    ensures F.BlockOk(false, buf, n)
    ensures KernelOf(false, n)(buf) == Int64(SumItems(rem[..|rem| - |P.AfterPacks(rem, n)|]))
  {
    hide ItemsOk, SumItems, P.BlockPacked, P.AfterPacks, F.PagesOk, F.BlockSum, Int64;
    PackedBlockSum(buf, rem, n);
  }
}
