/**
  The kernel's top level: pages of a block are dealt round-robin to processing units, each unit turns
  its words into bytes and sums its pages, and the unit sums are added up.
*/
module FlowWrap {
  import opened Machine
  import opened Streams
  import opened Lineitem
  import opened TupleParser
  import opened Kernel
  import H = HeapPage

  const WORD_SZ: nat := 16
  const WORDS_PER_PAGE: nat := 512

  type Word = w: seq<byte> | |w| == 16 witness [0, 0, 0, 0, 0, 0, 0, 0, 0, 0, 0, 0, 0, 0, 0, 0]

  /** Word w of a block. */
  function WordAt(block: seq<byte>, w: nat): Word
    requires WORD_SZ * w + WORD_SZ <= |block|
  {
    block[WORD_SZ * w..WORD_SZ * w + WORD_SZ]
  }

  function Bytes(ws: seq<Word>): (bs: seq<byte>)
    ensures |bs| == WORD_SZ * |ws|
  {
    if ws == [] then [] else Bytes(ws[..|ws| - 1]) + ws[|ws| - 1]
  }

  lemma BytesAppend(ws: seq<Word>, w: Word)
    ensures Bytes(ws + [w]) == Bytes(ws) + w
  {
    assert (ws + [w])[..|ws|] == ws;
  }

  /** The i-th page dealt to unit u: the units take turns. */
  function UnitPage(block: seq<byte>, numPu: nat, u: nat, i: nat): seq<byte> {
    H.BlockPage(block, Product(i, numPu) + u)
  }

  /** The first m pages dealt to unit u. */
  function UnitPages(block: seq<byte>, numPu: nat, u: nat, m: nat): (pages: seq<seq<byte>>)
    ensures |pages| == m
  {
    if m == 0 then [] else UnitPages(block, numPu, u, m - 1) + [UnitPage(block, numPu, u, m - 1)]
  }

  /** The first n pages of a block. */
  function BlockPages(block: seq<byte>, n: nat): (pages: seq<seq<byte>>)
    ensures |pages| == n
    ensures forall k: nat :: k < n ==> pages[k] == H.BlockPage(block, k)
  {
    if n == 0 then [] else BlockPages(block, n - 1) + [H.BlockPage(block, n - 1)]
  }

  ghost predicate PagesOk(native: bool, pages: seq<seq<byte>>) {
    forall k :: 0 <= k < |pages| ==> PageOk(native, pages[k])
  }

  /** A block all of whose pages can be processed. */
  ghost predicate BlockOk(native: bool, block: seq<byte>, n: nat) {
    |block| == PAGE_SZ * n && PagesOk(native, BlockPages(block, n))
  }

  function PagesSum(native: bool, pages: seq<seq<byte>>): int {
    if pages == [] then 0 else PagesSum(native, pages[..|pages| - 1]) + PageSum(native, pages[|pages| - 1])
  }

  lemma PagesSumStep(native: bool, pages: seq<seq<byte>>, i: nat)
    requires i < |pages|
    ensures PagesSum(native, pages[..i + 1]) == PagesSum(native, pages[..i]) + PageSum(native, pages[i])
  {
    assert pages[..i + 1][..i] == pages[..i];
  }

  /** The sum over the first n pages, in the order of the block. */
  function BlockSum(native: bool, block: seq<byte>, n: nat): int {
    PagesSum(native, BlockPages(block, n))
  }

  function UnitSum(native: bool, block: seq<byte>, numPu: nat, u: nat, m: nat): int {
    PagesSum(native, UnitPages(block, numPu, u, m))
  }

  /** The sum over the first u units. */
  function UnitsSum(native: bool, block: seq<byte>, numPu: nat, u: nat, m: nat): int {
    if u == 0 then 0 else UnitsSum(native, block, numPu, u - 1, m) + UnitSum(native, block, numPu, u - 1, m)
  }

  // ----- one unit -----

  /** A processing unit's work on one page. */
  method Q6Paged(native: bool, byteStream: Stream<byte>, ghost page: seq<byte>) returns (res: int)
    requires |byteStream.q| >= PAGE_SZ && byteStream.q[..PAGE_SZ] == page && PageOk(native, page)
    modifies byteStream
    ensures res == Int64(PageSum(native, page)) && byteStream.q == old(byteStream.q)[PAGE_SZ..]
  {
    hide Body, Count, Extracted, H.PageReadable, SumRows, Rows, RowsOk, Int64;
    ghost var n := Count(native, page);
    var fieldStrm := new StreamArray<Field>(COLUMNS);
    var longStrm := new StreamArray<int>(3);
    var shpStrm := new Stream<int>();
    var dataStream := new Stream<byte>();
    var nTupsStrm := new StreamArray<int>(6);
    var filterDone := new Stream<bool>();
    GetHeader(native, byteStream, nTupsStrm, dataStream, page);
    ghost var rows := Rows(dataStream.q, n);
    RowsAllReadable(dataStream.q, n);
    Q6Filter(native, nTupsStrm, dataStream, fieldStrm, filterDone, n);
    res := Join(nTupsStrm, fieldStrm, longStrm, shpStrm, filterDone, rows);
  }

  /** Either header stage. */
  method GetHeader(native: bool, byteStream: Stream<byte>, nTupsStrm: StreamArray<int>, dataStream: Stream<byte>,
                   ghost page: seq<byte>)
    requires |byteStream.q| >= PAGE_SZ && byteStream.q[..PAGE_SZ] == page && PageOk(native, page)
    requires byteStream != dataStream && dataStream.q == [] && |nTupsStrm.q| == 6 && forall i :: 0 <= i < 6 ==>
        nTupsStrm.q[i] == []
    modifies byteStream, nTupsStrm, dataStream
    ensures byteStream.q == old(byteStream.q)[PAGE_SZ..] && dataStream.q == Body(native, page)
    ensures |dataStream.q| == if native then PAGE_SZ else PAGE_SZ - 2
    ensures var n := Count(native, page); nTupsStrm.q == [[n], [n], [n], [n], [n], [n]]
  {
    hide RowsOk, Extracted, H.PageReadable, H.Concat;
    assert nTupsStrm.q == [[], [], [], [], [], []];
    if native {
      GetHeaderInt2Native(byteStream, nTupsStrm, dataStream);
    } else {
      GetHeaderInt2(byteStream, nTupsStrm, dataStream);
    }
  }

  /** The decoders and the aggregator. */
  method Join(nTupsStrm: StreamArray<int>, fieldStrm: StreamArray<Field>, longStrm: StreamArray<int>,
              shpStrm: Stream<int>, filterDone: Stream<bool>, ghost rows: seq<RawRow>)
    returns (res: int)
    requires nTupsStrm != longStrm && AllReadable(rows)
    requires nTupsStrm.q == [[], [|rows|], [|rows|], [|rows|], [|rows|], [|rows|]]
    requires ColumnsUpTo(fieldStrm.q, rows, |rows|, 0) && longStrm.q == [[], [], []] && shpStrm.q == []
        && filterDone.q == [true]
    modifies nTupsStrm, fieldStrm, longStrm, shpStrm, filterDone
    ensures res == Int64(SumRows(rows))
  {
    ToLong(nTupsStrm, 1, fieldStrm, longStrm, 0, rows);
    ToLong(nTupsStrm, 2, fieldStrm, longStrm, 1, rows);
    ToLong(nTupsStrm, 3, fieldStrm, longStrm, 2, rows);
    ToDate(nTupsStrm, 4, fieldStrm, shpStrm, rows);
    res := Agg(nTupsStrm, 5, longStrm, shpStrm, filterDone, rows);
  }

  lemma RowsAllReadable(bs: seq<byte>, n: nat)
    requires RowsOk(bs, n)
    ensures AllReadable(Rows(bs, n))
  {
    forall j | 0 <= j < n
      ensures Readable(Rows(bs, n)[j])
    {
      RowsReadable(bs, n, j);
    }
  }

  /** Turns a unit's words into bytes. */
  method PageToByte(win: StreamArray<Word>, u: nat, pagesPerPu: nat, out: Stream<byte>)
    requires u < |win.q| && |win.q[u]| == pagesPerPu * WORDS_PER_PAGE && out.q == []
    modifies win, out
    ensures out.q == Bytes(old(win.q[u])) && win.q == old(win.q)[u := []]
  {
    ghost var ws := win.q[u];
    ghost var done := 0;
    for i := 0 to pagesPerPu
      invariant done == i * WORDS_PER_PAGE && |ws| == pagesPerPu * WORDS_PER_PAGE
      invariant win.q == old(win.q)[u := ws[done..]] && out.q == Bytes(ws[..done])
    {
      for j := 0 to WORDS_PER_PAGE
        invariant done == i * WORDS_PER_PAGE + j
        invariant win.q == old(win.q)[u := ws[done..]] && out.q == Bytes(ws[..done])
      {
        var tmp := win.Read(u);
        BytesAppend(ws[..done], tmp);
        assert ws[..done] + [tmp] == ws[..done + 1];
        WordToBytes(tmp, out);
        done := done + 1;
      }
    }
    assert ws[..done] == ws && ws[done..] == [];
  }

  method WordToBytes(tmp: Word, out: Stream<byte>)
    modifies out
    ensures out.q == old(out.q) + tmp
  {
    for j := 0 to WORD_SZ
      invariant out.q == old(out.q) + tmp[..j]
    {
      out.Write(tmp[j]);
    }
    assert tmp[..WORD_SZ] == tmp;
  }

  lemma PageOkLen(native: bool, page: seq<byte>)
    requires PageOk(native, page)
    ensures |page| == PAGE_SZ
  {
  }

  /** A unit's pages, one after the other. */
  method Q6(native: bool, bStream: Stream<byte>, pagesPerPu: nat, ghost pages: seq<seq<byte>>) returns (sum: int)
    requires |pages| == pagesPerPu && PagesOk(native, pages)
    requires bStream.q == H.Concat(pages)
    modifies bStream
    ensures sum == Int64(PagesSum(native, pages)) && bStream.q == []
  {
    hide PageSum, PageOk;
    sum := 0;
    for i := 0 to pagesPerPu
      invariant bStream.q == H.Concat(pages[i..])
      invariant sum == Int64(PagesSum(native, pages[..i]))
    {
      ghost var page := pages[i];
      assert pages[i..][0] == page && pages[i..][1..] == pages[i + 1..];
      PageOkLen(native, page);
      var s := Q6Paged(native, bStream, page);
      PagesSumStep(native, pages, i);
      SumWraps(PagesSum(native, pages[..i]), PageSum(native, page));
      sum := Int64(sum + s);
    }
    assert pages[..pagesPerPu] == pages;
  }

  /** Sums of wrapped sums wrap like the whole sum. */
  lemma SumWraps(a: int, b: int)
    ensures Int64(Int64(a) + Int64(b)) == Int64(a + b)
  {
    Int64Add(a, Int64(b));
    Int64Add(b, a);
  }

  // ----- dealing pages to units -----

  lemma WordsOfPage(block: seq<byte>, k: nat, j: nat)
    requires PAGE_SZ * k + PAGE_SZ <= |block| && j < WORDS_PER_PAGE
    ensures WORD_SZ * (WORDS_PER_PAGE * k + j) + WORD_SZ <= |block|
    ensures H.BlockPage(block, k)[..WORD_SZ * j] + WordAt(block, WORDS_PER_PAGE * k + j)
        == H.BlockPage(block, k)[..WORD_SZ * (j + 1)]
  {
  }

  /** The words dealt so far: i whole rounds, and in the current round the units below `full`. */
  ghost predicate DealtPages(q: seq<seq<Word>>, block: seq<byte>, numPu: nat, i: nat, full: nat) {
    |q| == numPu && forall u: nat :: u < numPu ==>
      Bytes(q[u]) == H.Concat(UnitPages(block, numPu, u, if u < full then i + 1 else i))
  }

  /** Feeds each unit's input stream round-robin, page by page. */
  method ReadPages(block: seq<byte>, numPu: nat, pagesPerPu: nat, inStream: StreamArray<Word>)
    requires numPu > 0 && |block| == PAGE_SZ * Product(pagesPerPu, numPu)
    requires |inStream.q| == numPu && forall u :: 0 <= u < numPu ==> inStream.q[u] == []
    modifies inStream
    ensures DealtPages(inStream.q, block, numPu, pagesPerPu, 0)
  {
    for i := 0 to pagesPerPu
      invariant DealtPages(inStream.q, block, numPu, i, 0)
    {
      for u := 0 to numPu
        invariant DealtPages(inStream.q, block, numPu, i, u)
      {
        PageInBlock(numPu, pagesPerPu, i, u);
        ghost var before := inStream.q;
        ReadOnePage(block, numPu, i, u, inStream);
        DealtNext(before, inStream.q, block, numPu, i, u);
      }
    }
  }

  lemma PageInBlock(numPu: nat, pagesPerPu: nat, i: nat, u: nat)
    requires i < pagesPerPu && u < numPu
    ensures Product(i, numPu) + u + 1 <= Product(pagesPerPu, numPu)
  {
    ProductIs(i, numPu);
    ProductIs(pagesPerPu, numPu);
    ProductGap(i, pagesPerPu, numPu);
  }

  lemma DealtNext(before: seq<seq<Word>>, after: seq<seq<Word>>, block: seq<byte>, numPu: nat, i: nat, u: nat)
    requires DealtPages(before, block, numPu, i, u) && u < numPu
    requires |after| == numPu && after == before[u := after[u]]
    requires Bytes(after[u]) == Bytes(before[u]) + UnitPage(block, numPu, u, i)
    ensures DealtPages(after, block, numPu, i, u + 1)
  {
    H.ConcatOne(UnitPages(block, numPu, u, i), UnitPage(block, numPu, u, i));
  }

  /** The inner loop: one page, word by word, to one unit. */
  method ReadOnePage(block: seq<byte>, numPu: nat, i: nat, u: nat, inStream: StreamArray<Word>)
    requires u < |inStream.q| && PAGE_SZ * (Product(i, numPu) + u) + PAGE_SZ <= |block|
    modifies inStream
    ensures |inStream.q| == |old(inStream.q)| && inStream.q == old(inStream.q)[u := inStream.q[u]]
    ensures Bytes(inStream.q[u]) == Bytes(old(inStream.q[u])) + UnitPage(block, numPu, u, i)
  {
    hide Product, WordAt, Bytes;
    ghost var k, sofar := Product(i, numPu) + u, Bytes(inStream.q[u]);
    for j := 0 to WORDS_PER_PAGE
      invariant |inStream.q| == |old(inStream.q)| && inStream.q == old(inStream.q)[u := inStream.q[u]]
      invariant Bytes(inStream.q[u]) == sofar + H.BlockPage(block, k)[..WORD_SZ * j]
    {
      WordsOfPage(block, k, j);
      WordIndex(numPu, i, u, j);
      var tmpData := WordAt(block, (i * numPu * WORDS_PER_PAGE) + u * WORDS_PER_PAGE + j);
      BytesAppend(inStream.q[u], tmpData);
      AppendWord(sofar, H.BlockPage(block, k), WORD_SZ * j, tmpData);
      inStream.Write(u, tmpData);
    }
    assert H.BlockPage(block, k)[..WORD_SZ * WORDS_PER_PAGE] == H.BlockPage(block, k);
  }

  lemma WordIndex(numPu: nat, i: nat, u: nat, j: nat)
    ensures 0 <= (i * numPu * WORDS_PER_PAGE) + u * WORDS_PER_PAGE + j == WORDS_PER_PAGE * (Product(i, numPu) + u) + j
  {
    ProductIs(i, numPu);
  }

  lemma AppendWord(lane: seq<byte>, page: seq<byte>, n: nat, w: Word)
    requires n + WORD_SZ <= |page| && page[..n] + w == page[..n + WORD_SZ]
    ensures lane + page[..n] + w == lane + page[..n + WORD_SZ]
  {
    assert lane + page[..n] + w == lane + (page[..n] + w);
  }

  // ----- all units -----

  /** The unit sums, read column by column, are the block's sum, read row by row. */
  lemma {:induction false} UnitsAddUp(native: bool, block: seq<byte>, numPu: nat, m: nat)
    ensures UnitsSum(native, block, numPu, numPu, m) == BlockSum(native, block, Product(m, numPu))
  {
    hide UnitSum, UnitsSum, BlockSum, Product;
    if m == 0 {
      EmptyUnitsSum(native, block, numPu, numPu);
      BlockSumStep(native, block, 0);
      ProductStep(0, numPu);
    } else {
      UnitsAddUp(native, block, numPu, m - 1);
      OneMoreRound(native, block, numPu, numPu, m - 1);
      ProductStep(m - 1, numPu);
    }
  }

  lemma {:induction false} EmptyUnitsSum(native: bool, block: seq<byte>, numPu: nat, u: nat)
    ensures UnitsSum(native, block, numPu, u, 0) == 0
  {
    if u > 0 {
      EmptyUnitsSum(native, block, numPu, u - 1);
    }
  }

  lemma BlockSumStep(native: bool, block: seq<byte>, n: nat)
    ensures BlockSum(native, block, 0) == 0
    ensures BlockSum(native, block, n + 1) == BlockSum(native, block, n) + PageSum(native, H.BlockPage(block, n))
  {
    hide PageSum;
    assert BlockPages(block, n + 1)[..n] == BlockPages(block, n);
  }

  lemma PagesOkStep(native: bool, block: seq<byte>, n: nat)
    ensures PagesOk(native, BlockPages(block, 0))
    ensures PagesOk(native, BlockPages(block, n)) && PageOk(native, H.BlockPage(block, n)) ==>
        PagesOk(native, BlockPages(block, n + 1))
  {
    hide PageOk;
  }

  lemma UnitSumStep(native: bool, block: seq<byte>, numPu: nat, u: nat, m: nat)
    ensures UnitSum(native, block, numPu, u, m + 1)
        == UnitSum(native, block, numPu, u, m) + PageSum(native, UnitPage(block, numPu, u, m))
  {
    hide PageSum;
    assert UnitPages(block, numPu, u, m + 1)[..m] == UnitPages(block, numPu, u, m);
  }

  /** Round m adds, over the units below u, the next u pages of the block. */
  lemma {:induction false} OneMoreRound(native: bool, block: seq<byte>, numPu: nat, u: nat, m: nat)
    ensures UnitsSum(native, block, numPu, u, m + 1) - UnitsSum(native, block, numPu, u, m)
            == BlockSum(native, block, Product(m, numPu) + u) - BlockSum(native, block, Product(m, numPu))
  {
    hide BlockSum, UnitSum, PageSum;
    if u > 0 {
      OneMoreRound(native, block, numPu, u - 1, m);
      BlockSumStep(native, block, Product(m, numPu) + u - 1);
      UnitSumStep(native, block, numPu, u - 1, m);
    }
  }

  lemma {:induction false} UnitPagesOk(native: bool, block: seq<byte>, numPu: nat, u: nat, m: nat, pagesPerPu: nat)
    requires BlockOk(native, block, Product(pagesPerPu, numPu)) && u < numPu && m <= pagesPerPu
    ensures PagesOk(native, UnitPages(block, numPu, u, m))
  {
    hide PageOk, Product;
    if m > 0 {
      UnitPagesOk(native, block, numPu, u, m - 1, pagesPerPu);
      UnitPageOk(native, block, numPu, u, m - 1, pagesPerPu);
    }
  }

  lemma UnitPageOk(native: bool, block: seq<byte>, numPu: nat, u: nat, i: nat, pagesPerPu: nat)
    requires BlockOk(native, block, Product(pagesPerPu, numPu)) && u < numPu && i < pagesPerPu
    ensures PageOk(native, UnitPage(block, numPu, u, i))
  {
    hide PageOk, Product;
    PageInBlock(numPu, pagesPerPu, i, u);
    assert PageOk(native, BlockPages(block, Product(pagesPerPu, numPu))[Product(i, numPu) + u]);
  }

  lemma {:induction false} WholePages(native: bool, pages: seq<seq<byte>>)
    requires PagesOk(native, pages)
    ensures |H.Concat(pages)| == PAGE_SZ * |pages|
  {
    if pages != [] {
      assert PageOk(native, pages[0]);
      WholePages(native, pages[1..]);
    }
  }

  /** One unit's work on the words dealt to it. */
  method RunUnit(native: bool, inStream: StreamArray<Word>, u: nat, pagesPerPu: nat, ghost pages: seq<seq<byte>>)
    returns (puSum: int)
    requires u < |inStream.q| && Bytes(inStream.q[u]) == H.Concat(pages)
    requires |pages| == pagesPerPu && PagesOk(native, pages)
    modifies inStream
    ensures inStream.q == old(inStream.q)[u := []]
    ensures puSum == Int64(PagesSum(native, pages))
  {
    hide PagesOk, PagesSum;
    WholePages(native, pages);
    var byteStream := new Stream<byte>();
    PageToByte(inStream, u, pagesPerPu, byteStream);
    puSum := Q6(native, byteStream, pagesPerPu, pages);
  }

  /** The whole kernel on one block returns the sum over its pages in block order, wrapped to 64 bits. */
  method RunFlowWrap(native: bool, block: seq<byte>, numPu: nat, pagesPerPu: nat) returns (sum: int)
    requires numPu > 0 && BlockOk(native, block, Product(pagesPerPu, numPu))
    ensures sum == Int64(BlockSum(native, block, Product(pagesPerPu, numPu)))
  {
    hide PagesOk, BlockSum, PagesSum, UnitPages, Product, Int64, H.Concat;
    var inStream := new StreamArray<Word>(numPu);
    assert |block| == PAGE_SZ * Product(pagesPerPu, numPu);
    ReadPages(block, numPu, pagesPerPu, inStream);
    sum := 0;
    Int64Exact(0);
    for u := 0 to numPu
      invariant |inStream.q| == numPu
      invariant forall v: nat :: u <= v < numPu ==>
          Bytes(inStream.q[v]) == H.Concat(UnitPages(block, numPu, v, pagesPerPu))
      invariant sum == Int64(UnitsSum(native, block, numPu, u, pagesPerPu))
    {
      UnitPagesOk(native, block, numPu, u, pagesPerPu, pagesPerPu);
      var puSum := RunUnit(native, inStream, u, pagesPerPu, UnitPages(block, numPu, u, pagesPerPu));
      SumWraps(UnitsSum(native, block, numPu, u, pagesPerPu), UnitSum(native, block, numPu, u, pagesPerPu));
      sum := Int64(sum + puSum);
    }
    UnitsAddUp(native, block, numPu, pagesPerPu);
  }
}
