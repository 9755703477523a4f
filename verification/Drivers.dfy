/** What the packer's blocks are worth to the query, and the driver that emulates the kernel in software. */
module Drivers {
  import opened Machine
  import opened Tuples
  import Lineitem
  import H = HeapPage
  import K = Kernel
  import F = FlowWrap
  import P = Packer
  import S = SwEmu

  /** All items of a relation, in order. */
  function AllItems(rel: seq<seq<byte>>): seq<seq<byte>> {
    P.ItemsFrom(rel, 0)
  }

  /** The items that the packer delivers. */
  function Delivered(rel: seq<seq<byte>>): seq<seq<byte>> {
    AllItems(rel)[..P.Packable(AllItems(rel))]
  }

  /** Every heap page can be read, and every delivered item is one readable tuple. */
  ghost predicate RelationOk(rel: seq<seq<byte>>) {
    P.RelationReadable(rel) && ItemsOk(Delivered(rel))
  }

  lemma PackedPageSum(page: seq<byte>, items: seq<seq<byte>>)
    requires P.IsPacked(page, items) && ItemsOk(items)
    ensures K.PageOk(false, page) && K.PageSum(false, page) == SumItems(items)
  {
    hide ItemsOk, Lineitem.SumRows, Lineitem.RowsOk, Lineitem.Rows, RowsOf;
    var data := H.Concat(items);
    var rest := page[P.FIRST_DATA + |data|..];
    ParseItems(items, rest);
    assert page[2..] == data + rest;
  }

  /** A packed block is worth the tuples that were packed into it. */
  lemma {:induction false} PackedBlockSum(buf: seq<byte>, rem: seq<seq<byte>>, n: nat)
    requires P.BlockPacked(buf, rem, n) && |P.AfterPacks(rem, n)| <= |rem|
    requires ItemsOk(rem[..|rem| - |P.AfterPacks(rem, n)|])
    ensures F.PagesOk(false, F.BlockPages(buf, n))
    ensures F.BlockSum(false, buf, n) == SumItems(rem[..|rem| - |P.AfterPacks(rem, n)|])
  {
    hide ItemsOk, P.IsPacked, K.PageOk, K.PageSum, SumItems, F.BlockSum, F.PagesOk, P.NextPack, P.AfterPacks;
    if n == 0 {
      F.BlockSumStep(false, buf, 0);
      F.PagesOkStep(false, buf, 0);
      SumNone();
      P.NoPacks(rem);
      assert rem[..0] == [];
    } else {
      var i, j := |rem| - |P.AfterPacks(rem, n - 1)|, |rem| - |P.AfterPacks(rem, n)|;
      var pack := P.NextPack(P.AfterPacks(rem, n - 1));
      P.PackIsSlice(rem, n - 1);
      ItemsOkSplit(rem, i, j, pack);
      PackedBlockSum(buf, rem, n - 1);
      PackedPageSum(H.BlockPage(buf, n - 1), pack);
      F.BlockSumStep(false, buf, n - 1);
      F.PagesOkStep(false, buf, n - 1);
      SumItemsAppend(rem[..i], pack);
    }
  }

  lemma ItemsOkSplit(rem: seq<seq<byte>>, i: nat, j: nat, pack: seq<seq<byte>>)
    requires i <= j <= |rem| && pack == rem[i..j] && ItemsOk(rem[..j])
    ensures rem[..j] == rem[..i] + pack && ItemsOk(rem[..i]) && ItemsOk(pack)
  {
    assert forall k :: 0 <= k < i ==> rem[..i][k] == rem[..j][k];
    assert forall k :: 0 <= k < |pack| ==> pack[k] == rem[..j][i + k];
  }

  // ----- the driver around the software emulation -----

  /** What a driver has added up after delivering `taken` of the items. */
  ghost predicate SumUpTo(q6Sum: int, all: seq<seq<byte>>, taken: nat) {
    taken <= |all| && q6Sum == Int64(SumItems(all[..taken]))
  }

  lemma SumNothing(all: seq<seq<byte>>)
    ensures SumUpTo(0, all, 0)
  {
    SumNone();
    assert all[..0] == [];
  }

  /** Adding one block's result. */
  lemma AddBlock(q6Sum: int, all: seq<seq<byte>>, taken: nat, rem: seq<seq<byte>>, n: nat, s: int)
    requires SumUpTo(q6Sum, all, taken) && rem == all[taken..] && n <= |rem|
    requires s == Int64(SumItems(rem[..n]))
    ensures SumUpTo(Int64(q6Sum + s), all, taken + n)
  {
    hide SumItems;
    assert all[..taken + n] == all[..taken] + rem[..n];
    SumItemsAppend(all[..taken], rem[..n]);
    F.SumWraps(SumItems(all[..taken]), SumItems(rem[..n]));
  }

  lemma BlockItemsOk(all: seq<seq<byte>>, taken: nat, pages: nat)
    requires taken <= |all| && ItemsOk(all[..P.Packable(all)]) && P.Packable(all[taken..]) == P.Packable(all) - taken
    ensures var rem := all[taken..];
            var n := |rem| - |P.AfterPacks(rem, pages)|;
            && 0 <= n <= |rem| && ItemsOk(rem[..n]) && P.AfterPacks(rem, pages) == all[taken + n..]
            && P.Packable(all[taken + n..]) == P.Packable(all) - (taken + n)
  {
    hide ItemOk, P.Packable, P.AfterPacks;
    var rem := all[taken..];
    P.PacksArePackable(rem, pages);
    var n := |rem| - |P.AfterPacks(rem, pages)|;
    assert rem[n..] == all[taken + n..];
    forall k | 0 <= k < n
      ensures ItemOk(rem[..n][k])
    {
      assert rem[..n][k] == all[..P.Packable(all)][taken + k];
    }
  }

  /** The software driver returns the sum over all delivered tuples, each counted once, and terminates. */
  method RunSw(rel: seq<seq<byte>>, pages: nat) returns (q6Sum: int, nTups: nat)
    requires RelationOk(rel) && pages > 0
    ensures q6Sum == Int64(SumItems(Delivered(rel))) && nTups == |Delivered(rel)|
  {
    hide ItemsOk, SumItems, P.BlockPacked, P.Packable, P.AfterPacks, F.PagesOk, F.BlockSum, P.RelationReadable, H.Fit;
    hide P.Remaining;
    ghost var all := AllItems(rel);
    var st := new P.FillState(|rel|);
    var blk := new byte[PAGE_SZ * pages](_ => 0);
    q6Sum, nTups := 0, 0;
    SumNothing(all);
    P.RemainingIs(rel, 0, 0);
    var bRealPages := true;
    while bRealPages
      invariant P.CursorOk(rel, st) && nTups <= |all|
      invariant P.Remaining(rel, st.blkNum, st.linNum) == all[nTups..]
      invariant SumUpTo(q6Sum, all, nTups)
      invariant P.Packable(all[nTups..]) == P.Packable(all) - nTups
      invariant !bRealPages ==> nTups == P.Packable(all)
      decreases |all| - nTups, bRealPages
    {
      ghost var rem := all[nTups..];
      BlockItemsOk(all, nTups, pages);
      var filled;
      bRealPages, filled := P.FillBlock(rel, blk, pages, st);
      LastPage(rem, pages);
      PackedBlockSum(blk[..], rem, pages);
      var s := S.Q6SwEmu(blk[..], pages);
      AddBlock(q6Sum, all, nTups, rem, filled, s);
      q6Sum := Int64(q6Sum + s);
      nTups := nTups + filled;
    }
  }

  /** A block whose last page is empty exhausts the packable tuples; otherwise it takes at least one. */
  lemma LastPage(rem: seq<seq<byte>>, pages: nat)
    requires pages > 0
    ensures P.NextPack(P.AfterPacks(rem, pages - 1)) == [] ==> P.Packable(P.AfterPacks(rem, pages)) == 0
    ensures P.NextPack(P.AfterPacks(rem, pages - 1)) != [] ==> |P.AfterPacks(rem, pages)| < |rem|
  {
    hide P.Packable, H.Fit;
    var r := P.AfterPacks(rem, pages - 1);
    P.PacksArePackable(rem, pages - 1);
    P.EmptyPageMeansDone(r);
    if P.NextPack(r) == [] {
      assert r[0..] == r;
    }
  }
}
