/** The software emulation of the kernel: it reads a page through an eight-byte word buffer. */
module SwEmu {
  import opened Machine
  import opened Lineitem
  import Numeric
  import Calendar
  import Kernel
  import F = FlowWrap
  import H = HeapPage

  const WORD_SZ: nat := 8
  const FIELD_SZ: nat := 16
  const POSTGRES_EPOCH_JDATE: int := 2451545

  /** The static state of the emulation: the page, the word buffer and the offsets. */
  class WordReader {
    var off: nat
    var woff: nat
    var woffMax: nat
    var bufIdx: nat
    var pBuf: seq<byte>
    const pWord: array<byte>

    constructor ()
      ensures fresh(pWord) && pWord.Length == WORD_SZ
    {
      pWord := new byte[WORD_SZ];
      off, woff, woffMax, bufIdx, pBuf := 0, WORD_SZ, WORD_SZ, 0, [];
    }

    /** Either no word has been read, or the buffered word is the one before bufIdx, or the page is used up. */
    ghost predicate Valid()
      reads this, pWord
    {
      && |pBuf| == PAGE_SZ && pWord.Length == WORD_SZ
      && bufIdx % WORD_SZ == 0 && bufIdx <= PAGE_SZ
      && (if woffMax == 0 then woff == 0 && bufIdx == PAGE_SZ
          else woffMax == WORD_SZ && woff <= WORD_SZ
               && (if bufIdx == 0 then woff == WORD_SZ else pWord[..] == pBuf[bufIdx - WORD_SZ..bufIdx]))
    }

    /** The position in the page of the next byte. */
    ghost function Cursor(): (c: nat)
      requires Valid()
      reads this, pWord
      ensures c <= PAGE_SZ
    {
      if woffMax == 0 then PAGE_SZ else bufIdx - WORD_SZ + woff
    }

    method ResetBuf()
      requires |pBuf| == PAGE_SZ && pWord.Length == WORD_SZ
      modifies `bufIdx, `woff, `woffMax
      ensures Valid() && Cursor() == 0
    {
      bufIdx, woff, woffMax := 0, WORD_SZ, WORD_SZ;
    }

    method GetWord() returns (n: nat)
      requires |pBuf| == PAGE_SZ && pWord.Length == WORD_SZ && bufIdx % WORD_SZ == 0
      modifies `bufIdx, pWord
      ensures old(bufIdx) >= PAGE_SZ ==> n == 0 && bufIdx == old(bufIdx) && pWord[..] == old(pWord[..])
      ensures old(bufIdx) < PAGE_SZ ==>
          n == WORD_SZ && bufIdx == old(bufIdx) + WORD_SZ && pWord[..] == pBuf[old(bufIdx)..bufIdx]
    {
      if bufIdx >= PAGE_SZ {
        return 0;
      }
      for i := 0 to WORD_SZ
        invariant bufIdx == old(bufIdx) + i && pWord[..i] == pBuf[old(bufIdx)..bufIdx]
      {
        pWord[i] := pBuf[bufIdx];
        bufIdx := bufIdx + 1;
      }
      return WORD_SZ;
    }

    /** When the buffered word is used up, the next one is fetched, if there is one. */
    method Refill()
      requires Valid()
      modifies this, pWord
      ensures Valid() && pBuf == old(pBuf) && off == old(off) && Cursor() == old(Cursor())
      ensures woff == woffMax <==> Cursor() == PAGE_SZ
    {
      if woff == woffMax {
        woffMax := GetWord();
        woff := 0;
      }
    }

    method GetByte() returns (ok: bool, ch: byte)
      requires Valid()
      modifies this, pWord
      ensures Valid() && pBuf == old(pBuf)
      ensures ok <==> old(Cursor()) < PAGE_SZ
      ensures ok ==> ch == pBuf[old(Cursor())] && Cursor() == old(Cursor()) + 1 && off == old(off) + 1
      ensures !ok ==> Cursor() == old(Cursor()) && off == old(off)
    {
      ch := 0;
      Refill();
      if woff == woffMax {
        return false, ch;
      }
      assert pWord[..][woff] == pBuf[Cursor()];
      ch := pWord[woff];
      off := off + 1;
      woff := woff + 1;
      return true, ch;
    }

    /**
      Skips by whole words and an offset into the last; a skip may end on a word boundary or at the end of the page.
    */
    method SkipBytes(fLen: nat)
      requires Valid() && Cursor() + fLen <= PAGE_SZ
      modifies this, pWord
      ensures Valid() && pBuf == old(pBuf)
      ensures Cursor() == old(Cursor()) + fLen && off == old(off) + fLen
    {
      var nWordsToRead := (woff + fLen) / WORD_SZ;
      ghost var b0 := bufIdx;
      for i := 0 to nWordsToRead
        invariant pBuf == old(pBuf) && off == old(off) && woff == old(woff)
        invariant bufIdx == Min(b0 + WORD_SZ * i, PAGE_SZ)
        invariant i == 0 ==> woffMax == old(woffMax) && pWord[..] == old(pWord[..])
        invariant i > 0 ==> woffMax == if b0 + WORD_SZ * i <= PAGE_SZ then WORD_SZ else 0
        invariant i > 0 && b0 + WORD_SZ * i <= PAGE_SZ ==> pWord[..] == pBuf[bufIdx - WORD_SZ..bufIdx]
      {
        woffMax := GetWord();
      }
      off := off + fLen;
      woff := (woff + fLen) % WORD_SZ;
    }

    /**
      Moves to the start of attribute fPtr and tells its length; the tuple starts at position c0 of the page, where
      bs begins.
    */
    method GetFieldLen(fPtr: nat, ghost bs: seq<byte>, ghost c0: nat) returns (fLen: nat)
      requires Valid() && c0 <= PAGE_SZ && bs == pBuf[c0..] && Cursor() == c0 + off
      requires fPtr < ATTRS && FieldOk(bs, fPtr, off)
      modifies this, pWord
      ensures Valid() && pBuf == old(pBuf)
      ensures fLen == FieldLen(bs, fPtr, old(off)) && off == FieldStart(fPtr, old(off)) && Cursor() == c0 + off
    {
      if AttrLen(fPtr) != -1 {
        fLen := AttrLen(fPtr);
        if Aligned(fPtr) {
          var aoff := IntAlign(off);
          if aoff != off {
            var first := off;
            for i := first to aoff
              invariant Valid() && pBuf == old(pBuf) && off == i && Cursor() == c0 + off
            {
              var _, _ := GetByte();
            }
          }
        }
        return;
      }
      var _, ch := GetByte();
      fLen := ch as int / 2 - 1;
    }

    lemma WholePage()
      requires Valid()
      ensures |pBuf| == PAGE_SZ
    {
    }

    /** Reads the attribute's bytes into the front of fData. */
    method GetField(fLen: nat, fData: array<byte>)
      requires Valid() && Cursor() + fLen <= PAGE_SZ && fLen <= fData.Length && fData != pWord
      modifies this, pWord, fData
      ensures Valid() && pBuf == old(pBuf)
      ensures Cursor() == old(Cursor()) + fLen && off == old(off) + fLen
      ensures fData[..fLen] == pBuf[old(Cursor())..Cursor()]
    {
      hide Valid, Cursor;
      WholePage();
      for i := 0 to fLen
        invariant Valid() && pBuf == old(pBuf)
        invariant Cursor() == old(Cursor()) + i && off == old(off) + i
        invariant |pBuf| == PAGE_SZ && fData[..i] == pBuf[old(Cursor())..Cursor()]
      {
        var _, ch := GetByte();
        fData[i] := ch;
      }
    }
  }

  datatype Values = Values(quantity: int, extPrice: int, discount: int, shipDate: int)

  /** What the tuple loop knows before attribute fPtr of the row `r`. */
  ghost predicate ReadUpTo(v: Values, r: RawRow, fPtr: nat) {
    && (fPtr > QTY ==> v.quantity == Kernel.Value(r, 0))
    && (fPtr > EXT ==> v.extPrice == Kernel.Value(r, 1))
    && (fPtr > DSC ==> v.discount == Kernel.Value(r, 2))
    && (fPtr > SHP ==> v.shipDate == Kernel.Value(r, 3))
  }

  predicate Used(fPtr: nat) {
    fPtr == 4 || fPtr == 5 || fPtr == 6 || fPtr == 10
  }

  /** One attribute: skipped, or read into the front of fData. */
  method FetchAttr(rd: WordReader, fData: array<byte>, fPtr: nat, ghost bs: seq<byte>, ghost c0: nat)
    returns (fLen: nat)
    requires rd.Valid() && fData != rd.pWord && fPtr < ATTRS
    requires c0 <= PAGE_SZ && bs == rd.pBuf[c0..] && rd.Cursor() == c0 + rd.off && rd.off == Off(bs, fPtr)
    requires FieldOk(bs, fPtr, rd.off) && (Used(fPtr) ==> |Payload(bs, fPtr)| <= fData.Length)
    modifies rd, rd.pWord, fData
    ensures rd.Valid() && rd.pBuf == old(rd.pBuf)
    ensures rd.off == Off(bs, fPtr + 1) && rd.Cursor() == c0 + rd.off
    ensures Used(fPtr) ==> fLen <= fData.Length && fData[..fLen] == Payload(bs, fPtr)
  {
    hide WordReader.Valid, WordReader.Cursor;
    rd.WholePage();
    fLen := rd.GetFieldLen(fPtr, bs, c0);
    if !Used(fPtr) {
      rd.SkipBytes(fLen);
      return;
    }
    rd.GetField(fLen, fData);
  }

  /** Decodes the field that was read. */
  method DecodeField(v: Values, fPtr: nat, fData: seq<byte>, fLen: nat, ghost r: RawRow) returns (w: Values)
    requires fPtr < ATTRS && Readable(r) && ReadUpTo(v, r, fPtr)
    requires Used(fPtr) && |fData| == FIELD_SZ && fLen <= FIELD_SZ && fData[..fLen] == r[fPtr]
    ensures ReadUpTo(w, r, fPtr + 1)
  {
    w := v;
    if fPtr == 4 {
      var l := Numeric.SnumToLong3(fData, fLen);
      w := w.(quantity := l);
    } else if fPtr == 5 {
      var l := Numeric.SnumToLong3(fData, fLen);
      w := w.(extPrice := l);
    } else if fPtr == 6 {
      var l := Numeric.SnumToLong3(fData, fLen);
      w := w.(discount := l);
    } else {
      var d := GetJdate(fData);
      w := w.(shipDate := d);
    }
  }

  lemma UsedFieldFits(bs: seq<byte>, fPtr: nat)
    requires RowOk(bs) && Used(fPtr)
    ensures Payload(bs, fPtr) == RowAt(bs)[fPtr] && |Payload(bs, fPtr)| <= 14
  {
    RowReadable(bs);
    PayloadsAt(bs, ATTRS, fPtr);
  }

  /** One tuple, from its first byte at the cursor. */
  method ReadTuple(rd: WordReader, fData: array<byte>, ghost bs: seq<byte>) returns (v: Values)
    requires rd.Valid() && fData != rd.pWord && fData.Length == FIELD_SZ
    requires bs == rd.pBuf[rd.Cursor()..] && RowOk(bs)
    modifies rd, rd.pWord, fData
    ensures rd.Valid() && rd.pBuf == old(rd.pBuf) && rd.pBuf[rd.Cursor()..] == AfterTuple(bs)
    ensures ReadUpTo(v, RowAt(bs), ATTRS)
  {
    hide ReadUpTo, Readable, Payload, NumericsOk;
    ghost var c0 := rd.Cursor();
    TupleFits(bs);
    RowReadable(bs);
    rd.off := 0;
    v := Values(0, 0, 0, 0);
    NothingRead(v, RowAt(bs));
    for fPtr := 0 to ATTRS
      invariant rd.Valid() && rd.pBuf == old(rd.pBuf)
      invariant rd.off == Off(bs, fPtr) && rd.Cursor() == c0 + rd.off
      invariant ReadUpTo(v, RowAt(bs), fPtr)
    {
      FieldsOkAt(bs, ATTRS, fPtr);
      if Used(fPtr) {
        UsedFieldFits(bs, fPtr);
      }
      var fLen := FetchAttr(rd, fData, fPtr, bs, c0);
      if Used(fPtr) {
        assert fData[..][..fLen] == fData[..fLen];
        v := DecodeField(v, fPtr, fData[..], fLen, RowAt(bs));
      } else {
        OtherField(v, RowAt(bs), fPtr);
      }
    }
  }

  lemma NothingRead(v: Values, r: RawRow)
    ensures ReadUpTo(v, r, 0)
  {
  }

  lemma OtherField(v: Values, r: RawRow, fPtr: nat)
    requires ReadUpTo(v, r, fPtr) && !Used(fPtr)
    ensures ReadUpTo(v, r, fPtr + 1)
  {
  }

  method GetHeaderInt(rd: WordReader) returns (nTups: int)
    requires rd.Valid() && rd.Cursor() == 0
    modifies rd, rd.pWord
    ensures rd.Valid() && rd.Cursor() == 2 && rd.pBuf == old(rd.pBuf)
    ensures nTups == Word16(rd.pBuf[0], rd.pBuf[1])
  {
    var _, ch1 := rd.GetByte();
    var _, ch2 := rd.GetByte();
    nTups := Word16(ch1, ch2);
  }

  /** The date bounds that the emulation computes are the kernel's constants. */
  lemma DateBounds()
    ensures Calendar.Covered(Calendar.Date(1994, 1, 1)) && Calendar.Covered(Calendar.Date(1995, 1, 1))
    ensures Calendar.DayNumber(Calendar.Date(1994, 1, 1)) == JD19940101 + POSTGRES_EPOCH_JDATE < TWO31
    ensures Calendar.DayNumber(Calendar.Date(1995, 1, 1)) == JD19950101 + POSTGRES_EPOCH_JDATE < TWO31
  {
  }

  /** The announced tuples, one after the other. */
  method SumTuples(rd: WordReader, nTups: nat, ghost bs: seq<byte>) returns (sum: int)
    requires rd.Valid() && bs == rd.pBuf[rd.Cursor()..] && RowsOk(bs, nTups)
    modifies rd, rd.pWord
    ensures rd.pBuf == old(rd.pBuf) && sum == Int64(SumRows(Rows(bs, nTups)))
  {
    hide RowsOk, Rows, RowOk, RowAt, Int64, Readable, AfterTuple, Kernel.Value;
    ghost var rows := Rows(bs, nTups);
    DateBounds();
    var j94 := Calendar.Date2J(1994, 1, 1);
    var j95 := Calendar.Date2J(1995, 1, 1);
    var jd19940101, jd19950101 := j94 - POSTGRES_EPOCH_JDATE, j95 - POSTGRES_EPOCH_JDATE;
    var fData := new byte[FIELD_SZ];
    sum := 0;
    Kernel.ZeroRows(rows);
    for tup := 0 to nTups
      invariant rd.Valid() && rd.pBuf == old(rd.pBuf) && rd.pBuf[rd.Cursor()..] == AfterRows(bs, tup)
      invariant sum == Int64(SumRows(rows[..tup]))
    {
      RowsFrom(bs, nTups, tup);
      var v := ReadTuple(rd, fData, AfterRows(bs, tup));
      RowsReadable(bs, nTups, tup);
      Kernel.AggStep(rows, tup, v.quantity, v.extPrice, v.discount, v.shipDate);
      if v.shipDate >= jd19940101 && v.shipDate < jd19950101 && v.discount >= 5 && v.discount <= 7
        && v.quantity < 2400 {
        sum := Int64(sum + v.extPrice * v.discount);
      }
    }
    assert rows[..nTups] == rows;
  }

  /** The page loop: one sequential pass gives the same sum as the kernel's network of stages. */
  method Q6Paged(rd: WordReader) returns (sum: int)
    requires |rd.pBuf| == PAGE_SZ && rd.pWord.Length == WORD_SZ && Kernel.PageOk(false, rd.pBuf)
    modifies rd, rd.pWord
    ensures sum == Int64(Kernel.PageSum(false, rd.pBuf)) && rd.pBuf == old(rd.pBuf)
  {
    rd.ResetBuf();
    var nTups := GetHeaderInt(rd);
    CountIsHeader(rd.pBuf);
    sum := SumTuples(rd, nTups, Kernel.Body(false, rd.pBuf));
  }

  lemma CountIsHeader(page: seq<byte>)
    requires Kernel.PageOk(false, page)
    ensures Kernel.Count(false, page) == Word16(page[0], page[1]) && Kernel.Body(false, page) == page[2..]
  {
    hide RowsOk, H.PageReadable, Kernel.Extracted;
  }

  /** A whole block, page by page: exactly what the kernel's top level returns. */
  method Q6SwEmu(block: seq<byte>, pages: nat) returns (q6Sum: int)
    requires F.BlockOk(false, block, pages)
    ensures q6Sum == Int64(F.BlockSum(false, block, pages))
  {
    hide Kernel.PageSum, Kernel.PageOk;
    var rd := new WordReader();
    q6Sum := 0;
    F.BlockSumStep(false, block, 0);
    for page := 0 to pages
      invariant rd.pWord.Length == WORD_SZ && fresh(rd) && fresh(rd.pWord)
      invariant q6Sum == Int64(F.BlockSum(false, block, page))
    {
      assert Kernel.PageOk(false, F.BlockPages(block, pages)[page]);
      F.PageOkLen(false, H.BlockPage(block, page));
      rd.pBuf := H.BlockPage(block, page);
      var s := Q6Paged(rd);
      F.BlockSumStep(false, block, page);
      F.SumWraps(F.BlockSum(false, block, page), Kernel.PageSum(false, H.BlockPage(block, page)));
      q6Sum := Int64(q6Sum + s);
    }
  }
}
