/**
  The host packer: copies the tuple data of a relation's heap pages, in order, into pages of a simple
  format - a two-byte count and the tuples one after the other - with a cursor that can be resumed.
*/
module Packer {
  import opened Machine
  import opened Flatten
  import H = HeapPage

  const FIRST_DATA: nat := 2

  /** Where the next page continues; linNum means nothing once blkNum has reached nBlks. */
  class FillState {
    var blkNum: nat
    var nBlks: nat
    var linNum: int

    constructor (nBlks: nat)
      ensures this.nBlks == nBlks && blkNum == 0 && linNum == 0
    {
      this.nBlks := nBlks;
      blkNum, linNum := 0, 0;
    }
  }

  predicate RelationReadable(rel: seq<seq<byte>>) {
    forall b :: 0 <= b < |rel| ==> H.PageReadable(rel[b])
  }

  /** The items of heap page `blk` and later ones. */
  function ItemsFrom(rel: seq<seq<byte>>, blk: nat): seq<seq<byte>>
    decreases |rel| - blk
  {
    if blk >= |rel| then [] else H.Items(rel[blk], 0) + ItemsFrom(rel, blk + 1)
  }

  /** The items that a cursor still has to deliver. */
  function Remaining(rel: seq<seq<byte>>, blk: nat, lin: int): (items: seq<seq<byte>>) {
    if blk >= |rel| then [] else H.Items(rel[blk], if lin < 0 then 0 else lin) + ItemsFrom(rel, blk + 1)
  }

  ghost predicate CursorOk(rel: seq<seq<byte>>, st: FillState)
    reads st
  {
    st.nBlks == |rel| && st.blkNum <= |rel| && (st.blkNum < |rel| ==> st.linNum >= 0)
  }

  /** A page that holds exactly these items: count, data, and room to spare. */
  ghost predicate IsPacked(page: seq<byte>, items: seq<seq<byte>>) {
    && |page| == PAGE_SZ
    && Word16(page[0], page[1]) == |items| < 0x8000
    && FIRST_DATA + |H.Concat(items)| < PAGE_SZ
    && page[FIRST_DATA..FIRST_DATA + |H.Concat(items)|] == H.Concat(items)
  }

  method Memcpy(dst: array<byte>, at: nat, src: seq<byte>)
    requires at + |src| <= dst.Length
    modifies dst
    ensures dst[at..at + |src|] == src
    ensures dst[..at] == old(dst[..at]) && dst[at + |src|..] == old(dst[at + |src|..])
  {
    for i := 0 to |src|
      invariant dst[at..at + i] == src[..i]
      invariant dst[..at] == old(dst[..at]) && dst[at + i..] == old(dst[at + i..])
    {
      dst[at + i] := src[i];
    }
  }

  /** Tuple data of line linNum of a heap page. */
  method LineData(page: seq<byte>, linNum: nat) returns (data: seq<byte>)
    requires H.PageReadable(page) && linNum <= H.NLines(page)
    ensures data == H.Data(page, linNum)
  {
    assert H.ItemReadable(page, linNum);
    var lpLen := H.LpLen(page, linNum);
    var tuphdr := H.LpOff(page, linNum);
    var tHoff := page[tuphdr + H.T_HOFF] as int;
    var tupleDataLen := lpLen - tHoff;
    data := page[tuphdr + tHoff..tuphdr + tHoff + tupleDataLen];
  }

  /** Items taken so far, in the buffer page that starts at `base`. */
  ghost predicate Filling(buf: array<byte>, base: nat, before: seq<byte>, done: seq<seq<byte>>, used: nat)
    reads buf
  {
    && base + PAGE_SZ <= buf.Length == |before|
    && used == FIRST_DATA + |H.Concat(done)| < PAGE_SZ
    && buf[base + FIRST_DATA..base + used] == H.Concat(done)
    && buf[..base] == before[..base] && buf[base + PAGE_SZ..] == before[base + PAGE_SZ..]
  }

  /** Copies one tuple's data behind those already in the page. */
  method AppendTuple(buf: array<byte>, base: nat, used: nat, data: seq<byte>, ghost before: seq<byte>,
                     ghost done: seq<seq<byte>>)
    requires Filling(buf, base, before, done, used) && used + |data| < PAGE_SZ
    modifies buf
    ensures Filling(buf, base, before, done + [data], used + |data|)
  {
    ghost var old1, old2 := buf[..base + used], buf[base + used + |data|..];
    ghost var c := H.Concat(done);
    Memcpy(buf, base + used, data);
    H.ConcatOne(done, data);
    assert buf[..base] == old1[..base];
    assert buf[base + FIRST_DATA..base + used] == old1[base + FIRST_DATA..];
    assert buf[base + PAGE_SZ..] == old2[PAGE_SZ - used - |data|..];
    assert buf[base + FIRST_DATA..base + used + |data|]
      == buf[base + FIRST_DATA..base + used] + buf[base + used..base + used + |data|];
  }

  /** Stores the count in front of the tuples. */
  method StoreCount(buf: array<byte>, base: nat, ghost used: nat, nTups: nat, ghost before: seq<byte>,
                    ghost done: seq<seq<byte>>)
    requires Filling(buf, base, before, done, used) && nTups == |done| < 0x8000
    modifies buf
    ensures IsPacked(buf[base..base + PAGE_SZ], done)
    ensures buf[..base] == before[..base] && buf[base + PAGE_SZ..] == before[base + PAGE_SZ..]
  {
    ghost var b := buf[..];
    buf[base] := nTups % 256;
    buf[base + 1] := nTups / 256 % 256;
    assert buf[..base] == b[..base] && buf[base + FIRST_DATA..] == b[base + FIRST_DATA..];
    ghost var page := buf[base..base + PAGE_SZ];
    SliceOfSlice(buf[..], base, PAGE_SZ, FIRST_DATA, used - FIRST_DATA);
    SliceOfSlice(b, base, PAGE_SZ, FIRST_DATA, used - FIRST_DATA);
    SliceOfSlice(buf[..], base + FIRST_DATA, buf.Length - base - FIRST_DATA, 0, used - FIRST_DATA);
    SliceOfSlice(b, base + FIRST_DATA, buf.Length - base - FIRST_DATA, 0, used - FIRST_DATA);
    assert page[FIRST_DATA..used] == b[base + FIRST_DATA..base + used];
    assert buf[base + PAGE_SZ..] == b[base + PAGE_SZ..];
  }

  /** Non-empty items are no more than their bytes. */
  lemma {:induction false} FewItems(items: seq<seq<byte>>)
    requires forall i :: 0 <= i < |items| ==> items[i] != []
    ensures |items| <= |H.Concat(items)|
  {
    if items != [] {
      FewItems(items[1..]);
    }
  }

  lemma {:induction false} ItemsFromNonEmpty(rel: seq<seq<byte>>, blk: nat)
    ensures forall i :: 0 <= i < |ItemsFrom(rel, blk)| ==> ItemsFrom(rel, blk)[i] != []
    decreases |rel| - blk
  {
    hide H.Items;
    if blk < |rel| {
      ItemsFromNonEmpty(rel, blk + 1);
    }
  }

  /** The lines of one heap page, until the output page is full. */
  method PackLines(page: seq<byte>, firstLine: nat, buf: array<byte>, base: nat, used0: nat, nTups0: nat,
                   ghost before: seq<byte>, ghost items: seq<seq<byte>>, ghost done0: seq<seq<byte>>,
                   ghost tail: seq<seq<byte>>)
    returns (linNum: nat, used: nat, nTups: nat, bFilled: bool, ghost done: seq<seq<byte>>)
    requires H.PageReadable(page) && Filling(buf, base, before, done0, used0) && nTups0 == |done0|
    requires H.Taking(items, done0, H.Items(page, firstLine) + tail, used0, FIRST_DATA)
    modifies buf
    ensures Filling(buf, base, before, done, used) && nTups == |done|
    ensures bFilled ==> H.Taking(items, done, H.Items(page, linNum) + tail, used, FIRST_DATA)
    ensures bFilled ==> |H.Items(page, linNum) + tail| > 0 && used + |(H.Items(page, linNum) + tail)[0]| >= PAGE_SZ
    ensures !bFilled ==> H.Taking(items, done, tail, used, FIRST_DATA)
  {
    hide H.Items, H.Data, H.Taking, Filling;
    var nLines := H.NLines(page);
    linNum, used, nTups, bFilled, done := firstLine, used0, nTups0, false, done0;
    while linNum <= nLines
      invariant Filling(buf, base, before, done, used) && nTups == |done|
      invariant H.Taking(items, done, H.Items(page, linNum) + tail, used, FIRST_DATA)
    {
      var data := LineData(page, linNum);
      H.VisitLine(page, items, done, linNum, tail, used, FIRST_DATA);
      if |data| == 0 {
        linNum := linNum + 1;
        continue;
      }
      if used + |data| < PAGE_SZ {
        AppendTuple(buf, base, used, data, before, done);
        done := done + [data];
        used := used + |data|;
        nTups := nTups + 1;
      } else {
        bFilled := true;
        return;
      }
      linNum := linNum + 1;
    }
    H.ItemsStep(page, linNum);
    assert H.Items(page, linNum) + tail == tail;
  }

  lemma RemainingIs(rel: seq<seq<byte>>, blk: nat, lin: int)
    ensures blk >= |rel| ==> Remaining(rel, blk, lin) == []
    ensures blk < |rel| && lin >= 0 ==> Remaining(rel, blk, lin) == H.Items(rel[blk], lin) + ItemsFrom(rel, blk + 1)
    ensures Remaining(rel, blk, 0) == ItemsFrom(rel, blk)
  {
  }

  /** The items that a cursor delivers are never empty. */
  lemma RemainingNonEmpty(rel: seq<seq<byte>>, blk: nat, lin: int)
    ensures forall i :: 0 <= i < |Remaining(rel, blk, lin)| ==> Remaining(rel, blk, lin)[i] != []
  {
    hide H.Items;
    ItemsFromNonEmpty(rel, blk + 1);
  }

  lemma CountFits(rem: seq<seq<byte>>, done: seq<seq<byte>>, rest: seq<seq<byte>>, used: nat)
    requires H.Taking(rem, done, rest, used, FIRST_DATA) && used < PAGE_SZ
    requires forall i :: 0 <= i < |rem| ==> rem[i] != []
    ensures |done| < 0x8000
  {
    forall i | 0 <= i < |done|
      ensures done[i] != []
    {
      assert rem[i] == done[i];
    }
    FewItems(done);
  }

  /** Heap page after heap page, until the output page is full or the relation ends. */
  method PackBlocks(rel: seq<seq<byte>>, buf: array<byte>, base: nat, st: FillState, ghost before: seq<byte>,
                    ghost rem: seq<seq<byte>>)
    returns (nTups: nat, ghost used: nat, ghost done: seq<seq<byte>>)
    requires RelationReadable(rel) && CursorOk(rel, st)
    requires rem == Remaining(rel, st.blkNum, st.linNum) && Filling(buf, base, before, [], FIRST_DATA)
    modifies buf, st
    ensures CursorOk(rel, st) && Filling(buf, base, before, done, used) && nTups == |done|
    ensures var rest := Remaining(rel, st.blkNum, st.linNum);
            H.Taking(rem, done, rest, used, FIRST_DATA) && (rest != [] ==> used + |rest[0]| >= PAGE_SZ)
  {
    hide H.Items, H.Taking, Filling, H.PageReadable, ItemsFrom, Remaining, H.Fit;
    H.TakingStart(rem, FIRST_DATA);
    var dst := FIRST_DATA;
    nTups, done := 0, [];
    var bFilled := false;
    var linNum: int := *;
    var blkNum := st.blkNum;
    while blkNum < st.nBlks
      invariant st.nBlks == |rel| && blkNum <= |rel| && (blkNum < |rel| ==> st.linNum >= 0) && !bFilled
      invariant Filling(buf, base, before, done, dst) && nTups == |done|
      invariant H.Taking(rem, done, Remaining(rel, blkNum, st.linNum), dst, FIRST_DATA)
    {
      var first := st.linNum;
      st.linNum := 0;
      RemainingIs(rel, blkNum, first);
      RemainingIs(rel, blkNum + 1, 0);
      linNum, dst, nTups, bFilled, done :=
        PackLines(rel[blkNum], first, buf, base, dst, nTups, before, rem, done, ItemsFrom(rel, blkNum + 1));
      if bFilled {
        break;
      }
      blkNum := blkNum + 1;
    }
    RemainingIs(rel, blkNum, linNum);
    RemainingIs(rel, blkNum, st.linNum);
    st.blkNum := blkNum;
    st.linNum := linNum;
    used := dst;
  }

  /** Fills one page from the cursor on and moves the cursor: the page holds the greedy prefix of what remained. */
  method GetNextPage(rel: seq<seq<byte>>, buf: array<byte>, base: nat, st: FillState) returns (nTups: nat)
    requires RelationReadable(rel) && CursorOk(rel, st) && base + PAGE_SZ <= buf.Length
    modifies buf, st
    ensures CursorOk(rel, st)
    ensures var rem := old(Remaining(rel, st.blkNum, st.linNum));
            var n := H.Fit(rem, FIRST_DATA);
            && nTups == n && IsPacked(buf[base..base + PAGE_SZ], rem[..n])
            && Remaining(rel, st.blkNum, st.linNum) == rem[n..]
    ensures buf[..base] == old(buf[..base]) && buf[base + PAGE_SZ..] == old(buf[base + PAGE_SZ..])
  {
    hide H.Items, H.Taking, H.PageReadable, IsPacked, ItemsFrom, H.Fit;
    ghost var rem, before := Remaining(rel, st.blkNum, st.linNum), buf[..];
    RemainingNonEmpty(rel, st.blkNum, st.linNum);
    FillingStart(buf, base);
    ghost var used, done;
    nTups, used, done := PackBlocks(rel, buf, base, st, before, rem);
    ghost var rest := Remaining(rel, st.blkNum, st.linNum);
    H.TakingStop(rem, done, rest, used, FIRST_DATA);
    CountFits(rem, done, rest, used);
    StoreCount(buf, base, used, nTups, before, done);
  }

  lemma FillingStart(buf: array<byte>, base: nat)
    requires base + PAGE_SZ <= buf.Length
    ensures Filling(buf, base, buf[..], [], FIRST_DATA)
  {
  }

  // ----- blocks -----

  function NextPack(rem: seq<seq<byte>>): seq<seq<byte>> {
    rem[..H.Fit(rem, FIRST_DATA)]
  }

  /** What remains after n more pages. */
  function AfterPacks(rem: seq<seq<byte>>, n: nat): seq<seq<byte>> {
    if n == 0 then rem else
    var r := AfterPacks(rem, n - 1);
    r[H.Fit(r, FIRST_DATA)..]
  }

  /** Pages 0..n of a block are packed with the next n greedy prefixes of rem. */
  ghost predicate BlockPacked(buf: seq<byte>, rem: seq<seq<byte>>, n: nat) {
    forall k: nat :: k < n ==> IsPacked(H.BlockPage(buf, k), NextPack(AfterPacks(rem, k)))
  }

  /** Fills a block of `pages` pages; tells whether its last page holds anything. */
  method FillBlock(rel: seq<seq<byte>>, buf: array<byte>, pages: nat, st: FillState)
    returns (bRealPages: bool, nTups: nat)
    requires RelationReadable(rel) && CursorOk(rel, st) && buf.Length == PAGE_SZ * pages && pages > 0
    modifies buf, st
    ensures CursorOk(rel, st)
    ensures var rem := old(Remaining(rel, st.blkNum, st.linNum));
            && BlockPacked(buf[..], rem, pages)
            && Remaining(rel, st.blkNum, st.linNum) == AfterPacks(rem, pages)
            && (bRealPages <==> NextPack(AfterPacks(rem, pages - 1)) != [])
            && nTups == |rem| - |AfterPacks(rem, pages)|
  {
    hide IsPacked, Remaining, H.Fit, H.PageReadable;
    ghost var rem := Remaining(rel, st.blkNum, st.linNum);
    bRealPages, nTups := true, 0;
    for pgNum := 0 to pages
      invariant CursorOk(rel, st) && BlockPacked(buf[..], rem, pgNum)
      invariant Remaining(rel, st.blkNum, st.linNum) == AfterPacks(rem, pgNum)
      invariant pgNum > 0 ==> (bRealPages <==> NextPack(AfterPacks(rem, pgNum - 1)) != [])
      invariant nTups == |rem| - |AfterPacks(rem, pgNum)|
    {
      ghost var before := buf[..];
      var pgTups := GetNextPage(rel, buf, PAGE_SZ * pgNum, st);
      KeepPages(before, buf[..], rem, pgNum);
      bRealPages := pgTups != 0;
      nTups := nTups + pgTups;
    }
  }

  lemma KeepPages(before: seq<byte>, after: seq<byte>, rem: seq<seq<byte>>, n: nat)
    requires BlockPacked(before, rem, n) && |before| == |after| && PAGE_SZ * n + PAGE_SZ <= |after|
    requires after[..PAGE_SZ * n] == before[..PAGE_SZ * n]
    requires IsPacked(after[PAGE_SZ * n..PAGE_SZ * n + PAGE_SZ], NextPack(AfterPacks(rem, n)))
    ensures BlockPacked(after, rem, n + 1)
  {
    hide IsPacked;
    forall k: nat | k < n
      ensures H.BlockPage(after, k) == H.BlockPage(before, k)
    {
      H.SamePage(before, after, k, n);
    }
  }

  // ----- what whole runs of the packer deliver -----

  /** The tuples up to the first that fits no page; with a size of at most 8189 bytes every tuple fits. */
  function Packable(items: seq<seq<byte>>): (n: nat)
    ensures n <= |items|
  {
    if items == [] || FIRST_DATA + |items[0]| >= PAGE_SZ then 0 else 1 + Packable(items[1..])
  }

  /** All tuples are packable exactly when none is longer than 8189 bytes. */
  lemma {:induction false} PackableExactly(items: seq<seq<byte>>)
    ensures Packable(items) == |items| <==> forall i :: 0 <= i < |items| ==> |items[i]| <= 8189
  {
    if items != [] {
      PackableExactly(items[1..]);
      if Packable(items) == |items| {
        forall i | 0 <= i < |items|
          ensures |items[i]| <= 8189
        {
          assert i > 0 ==> items[i] == items[1..][i - 1];
        }
      } else if FIRST_DATA + |items[0]| < PAGE_SZ {
        var i :| 0 <= i < |items[1..]| && |items[1..][i]| > 8189;
        assert items[i + 1] == items[1..][i];
      }
    }
  }

  /** Taking a greedy prefix never passes the packable tuples, and takes none only when the next is not packable. */
  lemma {:induction false} FitPackable(items: seq<seq<byte>>, used: nat)
    requires used >= FIRST_DATA
    ensures H.Fit(items, used) <= Packable(items)
    ensures Packable(items[H.Fit(items, used)..]) == Packable(items) - H.Fit(items, used)
    decreases |items|
  {
    if items != [] && used + |items[0]| < PAGE_SZ {
      FitPackable(items[1..], used + |items[0]|);
      assert items[H.Fit(items, used)..] == items[1..][H.Fit(items, used) - 1..];
    }
  }

  /** n pages take a prefix of the packable tuples. */
  lemma {:induction false} PacksArePackable(rem: seq<seq<byte>>, n: nat)
    ensures var a := AfterPacks(rem, n);
            && |a| <= |rem| && a == rem[|rem| - |a|..]
            && Packable(a) == Packable(rem) - (|rem| - |a|)
  {
    hide H.Fit, Packable;
    if n > 0 {
      PacksArePackable(rem, n - 1);
      FitPackable(AfterPacks(rem, n - 1), FIRST_DATA);
    }
  }

  /** Page n holds the items between what n and n + 1 pages leave. */
  lemma PackIsSlice(rem: seq<seq<byte>>, n: nat)
    ensures var i, j := |rem| - |AfterPacks(rem, n)|, |rem| - |AfterPacks(rem, n + 1)|;
            0 <= i <= j <= |rem| && NextPack(AfterPacks(rem, n)) == rem[i..j]
  {
    hide H.Fit, Packable;
    PacksArePackable(rem, n);
    PacksArePackable(rem, n + 1);
  }

  lemma NoPacks(rem: seq<seq<byte>>)
    ensures AfterPacks(rem, 0) == rem
  {
  }

  /** An empty page appears only once no packable tuple is left. */
  lemma EmptyPageMeansDone(rem: seq<seq<byte>>)
    ensures NextPack(rem) == [] <==> Packable(rem) == 0
  {
  }
}
