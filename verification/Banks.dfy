/**
  The gather host's table layout: the table is cut into equal parts, one per memory bank, and every
  index is remapped to where its row lies in the flat address space of the banks.
*/
module Banks {
  import opened Machine
  import opened Interleave
  import G = Gather

  datatype Row = Row(measure: int, group: int)

  const ROWS: nat := 0x400_0000
  const ROW_BYTES: nat := 8
  const MAX_DDR_SIZE: nat := 0x1000_0000
  const DB_SIZE: nat := 0x2000_0000
  const HBM_SIZE: nat := 0x2000_0000
  const MAX_HBM_BANKCOUNT: int := 32
  const IN_HBM_BANKCOUNT_IDX: int := 8

  /** Rows that fit one bank's address range, with and without pseudo channels. */
  function Stride(pseudoChannel: bool): nat {
    (if pseudoChannel then HBM_SIZE / 2 else HBM_SIZE) / ROW_BYTES
  }

  predicate PowerOfTwoTest(n: bv32) {
    n & (n - 1) == 0
  }

  /** The check that `main` makes on the bank count. */
  method ValidateBankCount(banks: int) returns (valid: bool)
    ensures valid <==> banks in {2, 4, 8, 16, 32}
  {
    valid := 0 < banks && banks <= MAX_HBM_BANKCOUNT;
    if valid {
      PowersUpTo32(banks as bv32);
      valid := PowerOfTwoTest(banks as bv32);
    }
    var ddrTest := MAX_DDR_SIZE;
    if banks > IN_HBM_BANKCOUNT_IDX {
      ddrTest := ddrTest / 2;
    }
    valid := valid && banks * ddrTest >= DB_SIZE;
  }

  lemma PowersUpTo32(n: bv32)
    requires 0 < n <= 32
    ensures PowerOfTwoTest(n) <==> n in {1, 2, 4, 8, 16, 32}
  {
  }

  /** Where row i lies when each bank holds `per` rows and banks start `stride` rows apart. */
  function Banked(i: nat, per: nat, stride: nat): int
    requires per > 0
  {
    i + (i / per) * (stride - per)
  }

  /** Inside its bank a row keeps its offset. */
  lemma BankedPlace(i: nat, per: nat, stride: nat)
    requires per > 0
    ensures Banked(i, per, stride) == (i / per) * stride + i % per
  {
    QuotientStep(per, i);
    var b := i / per;
    assert b * (stride - per) == b * stride - b * per;
  }

  /** As long as a bank's rows fit its address range, rows keep their order and land in their own bank. */
  lemma BankedInBank(i: nat, per: nat, stride: nat)
    requires 0 < per <= stride
    ensures Banked(i, per, stride) >= 0
    ensures Banked(i, per, stride) / stride == i / per && Banked(i, per, stride) % stride == i % per
  {
    BankedPlace(i, per, stride);
    QuotientStep(per, i);
    DivideUnique(Banked(i, per, stride), stride, i / per, i % per);
    Distribute(i / per, 0, stride);
  }

  lemma BankedMonotone(i: nat, j: nat, per: nat, stride: nat)
    requires 0 < per <= stride && i < j
    ensures Banked(i, per, stride) < Banked(j, per, stride)
  {
    QuotientStep(per, i);
    QuotientStep(per, j);
    BankedPlace(i, per, stride);
    BankedPlace(j, per, stride);
    if i / per < j / per {
      ProductGap(i / per, j / per, stride);
    } else if i / per > j / per {
      ProductGap(j / per, i / per, per);
    }
  }

  ghost predicate Injective(rows: nat, per: nat, stride: nat)
    requires per > 0
  {
    forall i: nat, j: nat :: i < j < rows ==> Banked(i, per, stride) != Banked(j, per, stride)
  }

  /** The remapping keeps rows apart exactly when there is one bank or a bank's rows fit its address range. */
  lemma InjectiveExactly(banks: nat, per: nat, stride: nat)
    requires banks > 0 && per > 0
    ensures Injective(banks * per, per, stride) <==> banks == 1 || per <= stride
  {
    var rows := banks * per;
    if per <= stride {
      forall i: nat, j: nat | i < j < rows
        ensures Banked(i, per, stride) != Banked(j, per, stride)
      {
        BankedMonotone(i, j, per, stride);
      }
    } else if banks == 1 {
      forall i: nat | i < rows
        ensures Banked(i, per, stride) == i
      {
        DivideUnique(i, per, 0, i);
      }
    } else {
      ProductGap(1, banks, per);
      BankedPlace(per, per, stride);
      BankedPlace(stride, per, stride);
      DivideUnique(per, per, 1, 0);
      DivideUnique(stride, per, 0, stride);
      assert Banked(stride, per, stride) == Banked(per, per, stride);
      assert stride < per < rows;
    }
  }

  /**
    For every bank count that passes validation the remapping has room in 32 bits, whether or not the buffers can be
    set up.
  */
  lemma AcceptedCountsFit(banks: nat, pseudoChannel: bool)
    requires banks in {2, 4, 8, 16, 32}
    ensures ROWS % banks == 0 && 4 <= ROWS / banks <= Stride(pseudoChannel) && (ROWS / banks) % 4 == 0
    ensures banks * Stride(pseudoChannel) <= TWO32 && Stride(pseudoChannel) % 4 == 0
  {
  }

  /** Remaps all indices, in 32-bit unsigned arithmetic; the software emulation keeps them as they are. */
  method InMapp(input: array<int>, inMapped: array<int>, swEmu: bool, rows: nat, hbmNum: nat, stride: nat)
    requires input != inMapped && input.Length == inMapped.Length
    requires hbmNum > 0 && rows / hbmNum > 0
    requires forall i :: 0 <= i < input.Length ==> 0 <= input[i] < TWO32
    modifies inMapped
    ensures forall i :: 0 <= i < input.Length ==>
              inMapped[i] == if swEmu then input[i] else UInt32(Banked(input[i], rows / hbmNum, stride))
  {
    if swEmu {
      for i := 0 to input.Length
        invariant forall k :: 0 <= k < i ==> inMapped[k] == input[k]
      {
        inMapped[i] := input[i];
      }
    } else {
      var perInterDbIndx := rows / hbmNum;
      var hbmIndx := stride;
      for i := 0 to input.Length
        invariant forall k :: 0 <= k < i ==> inMapped[k] == UInt32(Banked(input[k], perInterDbIndx, hbmIndx))
      {
        var flag := input[i] / perInterDbIndx;
        inMapped[i] := UInt32(input[i] + flag * (hbmIndx - perInterDbIndx));
      }
    }
  }

  /** Rows 0..n of the table lie where the remapping looks for them. */
  ghost predicate Placed(a: seq<Row>, mem: seq<Row>, n: nat, per: nat, stride: nat)
    requires per > 0
  {
    n <= |a| && forall k: nat :: k < n ==> 0 <= Banked(k, per, stride) < |mem| && mem[Banked(k, per, stride)] == a[k]
  }

  lemma PlaceNext(a: seq<Row>, mem: seq<Row>, banks: nat, per: nat, stride: nat, b: nat, x: nat)
    requires 0 < per <= stride && |a| == banks * per && |mem| == banks * stride && b < banks && x < per
    requires Placed(a, mem, b * per + x, per, stride)
    ensures 0 <= b * stride + x < |mem| && 0 <= b * per + x < |a|
    ensures Placed(a, mem[b * stride + x := a[b * per + x]], b * per + x + 1, per, stride)
  {
    var k0 := b * per + x;
    ProductGap(b, banks, stride);
    ProductGap(b, banks, per);
    PositionSplit(per, b, x);
    BankedPlace(k0, per, stride);
    forall k: nat | k < k0
      ensures Banked(k, per, stride) < Banked(k0, per, stride)
    {
      BankedMonotone(k, k0, per, stride);
    }
  }

  /** Part i of the table has its buffer where the remapping looks for it. */
  ghost predicate BuffersApart(starts: seq<nat>, banks: nat, stride: nat) {
    |starts| == banks && forall i :: 0 <= i < banks ==> starts[i] == i * stride
  }

  /** Copies part i of the table to the start of its buffer. */
  method BankCopy(a: seq<Row>, mem: array<Row>, starts: seq<nat>, banks: nat, per: nat, stride: nat)
    requires 0 < per <= stride && |a| == banks * per && mem.Length == banks * stride
        && BuffersApart(starts, banks, stride)
    modifies mem
    ensures Placed(a, mem[..], |a|, per, stride)
  {
    for i := 0 to banks
      invariant 0 <= i * per
      invariant Placed(a, mem[..], i * per, per, stride)
    {
      for x := 0 to per
        invariant Placed(a, mem[..], i * per + x, per, stride)
      {
        PlaceNext(a, mem[..], banks, per, stride, i, x);
        ghost var before := mem[..];
        mem[starts[i] + x] := a[i * per + x];
        assert mem[..] == before[i * stride + x := a[i * per + x]];
      }
      Distribute(i, 1, per);
    }
  }

  /** The same memory as the kernel reads it, four rows to a burst. */
  function Bursts(mem: seq<Row>): (ddr: seq<G.Burst>)
    ensures |ddr| == |mem| / 4
  {
    seq(|mem| / 4, b requires 0 <= b < |mem| / 4 =>
      [mem[4 * b].measure, mem[4 * b].group, mem[4 * b + 1].measure, mem[4 * b + 1].group,
       mem[4 * b + 2].measure, mem[4 * b + 2].group, mem[4 * b + 3].measure, mem[4 * b + 3].group])
  }

  lemma BurstsHoldRows(mem: seq<Row>, addr: nat)
    requires |mem| % 4 == 0 && addr < |mem|
    ensures G.InRange(Bursts(mem), addr)
    ensures G.TableWord(Bursts(mem), addr, 0) == mem[addr].measure
    ensures G.TableWord(Bursts(mem), addr, 1) == mem[addr].group
  {
    var b, r := addr / 4, addr % 4;
    assert addr == 4 * b + r && b < |mem| / 4;
    if r == 0 {
    } else if r == 1 {
    } else if r == 2 {
    } else {
      assert r == 3;
    }
  }

  function RowOf(out: seq<G.Burst>, e: nat): Row
    requires e < 4 * |out|
  {
    Row(out[e / 4][2 * (e % 4)], out[e / 4][2 * (e % 4) + 1])
  }

  /** The loop that defines the operation. */
  method CIndirect(a: seq<Row>, input: array<int>, out: array<Row>)
    requires input.Length == out.Length
    requires forall i :: 0 <= i < input.Length ==> 0 <= input[i] < |a|
    modifies out
    ensures forall i :: 0 <= i < out.Length ==> out[i] == a[input[i]]
  {
    for i := 0 to out.Length
      invariant forall k :: 0 <= k < i ==> out[k] == a[input[k]]
    {
      out[i] := a[input[i]];
    }
  }

  /** Eight indices to an input burst. */
  function InBursts(xs: seq<int>): (bs: seq<G.Burst>)
    ensures |bs| == |xs| / 8
    ensures forall e: nat :: e < 8 * |bs| ==> G.EntryAt(bs, e) == xs[e]
  {
    var bs: seq<G.Burst> := seq(|xs| / 8, b requires 0 <= b < |xs| / 8 => xs[8 * b..8 * b + 8]);
    assert forall e: nat :: e < 8 * |bs| ==> 8 * (e / 8) + e % 8 == e;
    bs
  }

  /** The kernel's view of memory finds row k at its remapped address. */
  ghost predicate Serves(ddr: seq<G.Burst>, a: seq<Row>, per: nat, stride: nat)
    requires per > 0
  {
    forall k: nat :: k < |a| ==>
      && G.InRange(ddr, Banked(k, per, stride)) && Banked(k, per, stride) < TWO32
      && G.TableWord(ddr, Banked(k, per, stride), 0) == a[k].measure
      && G.TableWord(ddr, Banked(k, per, stride), 1) == a[k].group
  }

  /** Fills the banks with the table. */
  method LoadBanks(a: seq<Row>, starts: seq<nat>, banks: nat, per: nat, stride: nat) returns (ddr: seq<G.Burst>)
    requires BuffersApart(starts, banks, stride)
    requires 0 < per <= stride && stride % 4 == 0 && |a| == banks * per && 0 <= banks * stride <= TWO32
    ensures Serves(ddr, a, per, stride)
  {
    var mem := new Row[banks * stride](_ => Row(0, 0));
    BankCopy(a, mem, starts, banks, per, stride);
    MultipleOfFour(banks, stride);
    ddr := Bursts(mem[..]);
    forall k: nat | k < |a|
      ensures G.InRange(ddr, Banked(k, per, stride)) && Banked(k, per, stride) < TWO32
      ensures G.TableWord(ddr, Banked(k, per, stride), 0) == a[k].measure
      ensures G.TableWord(ddr, Banked(k, per, stride), 1) == a[k].group
    {
      BurstsHoldRows(mem[..], Banked(k, per, stride));
    }
  }

  /** Remaps a block of indices and packs it into input bursts. */
  method MapBlock(ghost a: seq<Row>, ghost ddr: seq<G.Burst>, input: array<int>, banks: nat, per: nat, stride: nat)
    returns (inBuf: seq<G.Burst>)
    requires banks > 0 && 0 < per <= stride && |a| == banks * per && |a| <= TWO32 && Serves(ddr, a, per, stride)
    requires forall i :: 0 <= i < input.Length ==> 0 <= input[i] < |a|
    ensures |inBuf| == input.Length / 8
    ensures forall e: nat :: e < 8 * |inBuf| ==> G.EntryAt(inBuf, e) == Banked(input[e], per, stride)
  {
    var inMapped := new int[input.Length];
    DivideUnique(banks * per, banks, per, 0);
    InMapp(input, inMapped, false, banks * per, banks, stride);
    forall e: nat | e < input.Length
      ensures inMapped[e] == Banked(input[e], per, stride)
    {
      var k: nat := input[e];
      assert G.InRange(ddr, Banked(k, per, stride));
    }
    inBuf := InBursts(inMapped[..]);
  }

  lemma SameRows(a: seq<Row>, ddr: seq<G.Burst>, xs: seq<int>, inBuf: seq<G.Burst>, out: seq<G.Burst>, per: nat,
                 stride: nat)
    requires per > 0 && Serves(ddr, a, per, stride) && |xs| == 8 * |inBuf| == 4 * |out|
    requires forall i :: 0 <= i < |xs| ==> 0 <= xs[i] < |a|
    requires forall e: nat :: e < 8 * |inBuf| ==> G.EntryAt(inBuf, e) == Banked(xs[e], per, stride)
    requires forall e: nat :: e < 8 * |inBuf| ==> G.SameRow(out, e, ddr, G.EntryAt(inBuf, e))
    ensures forall e: nat :: e < |xs| ==> RowOf(out, e) == a[xs[e]]
  {
    forall e: nat | e < |xs|
      ensures RowOf(out, e) == a[xs[e]]
    {
      assert G.SameRow(out, e, ddr, G.EntryAt(inBuf, e));
      var k: nat := xs[e];
      assert G.InRange(ddr, Banked(k, per, stride));
    }
  }

  /**
    Remapping, bank copy and kernel together do what the plain loop does: row e of the output is the
    table row that the original, unmapped entry e points to, for every stream count and for every bank
    layout whose buffers lie a stride apart.
  */
  method GatherBlock(stream: nat, a: seq<Row>, input: array<int>, starts: seq<nat>, banks: nat, per: nat, stride: nat)
    returns (out: array<G.Burst>)
    requires BuffersApart(starts, banks, stride)
    requires G.StreamCount(stream) && input.Length % 16 == 0
    requires banks > 0 && 0 < per <= stride && stride % 4 == 0 && 0 <= banks * stride <= TWO32
    requires |a| == banks * per
    requires forall i :: 0 <= i < input.Length ==> 0 <= input[i] < |a|
    ensures fresh(out) && 4 * out.Length == input.Length
    ensures forall e: nat :: e < input.Length ==> RowOf(out[..], e) == a[input[e]]
  {
    PartsBelowLimit(banks, per, stride);
    var ddr := LoadBanks(a, starts, banks, per, stride);
    var inBuf := MapBlock(a, ddr, input, banks, per, stride);
    forall e: nat | e < 8 * |inBuf|
      ensures G.InRange(ddr, G.EntryAt(inBuf, e))
    {
      var k: nat := input[e];
      assert G.InRange(ddr, Banked(k, per, stride));
    }
    out := new G.Burst[2 * |inBuf|](_ => [0, 0, 0, 0, 0, 0, 0, 0]);
    G.RunGather(stream, inBuf, ddr, out);
    SameRows(a, ddr, input[..], inBuf, out[..], per, stride);
  }

  lemma PartsBelowLimit(banks: nat, per: nat, stride: nat)
    requires banks > 0 && 0 < per <= stride && banks * stride <= TWO32
    ensures banks * per <= TWO32
  {
    if per < stride {
      ProductGap(per, stride, banks);
    }
  }

  lemma MultipleOfFour(banks: nat, stride: nat)
    requires stride % 4 == 0
    ensures (banks * stride) % 4 == 0
  {
    var q := stride / 4;
    assert banks * stride == 4 * (banks * q) by {
      Associate(4, banks, q);
      Associate(banks, 4, q);
      Associate(banks, q, 4);
    }
  }

  // ----- setting up the buffers -----

  /** A buffer is tied to a numbered bank, or to none: zero flags. */
  datatype Bank = Numbered(n: nat) | None

  const MAX_BUFFERS: nat := 16
  const NAMED_BANKS: nat := 20

  /** The table of bank flags; entries behind the initialised ones are zero. */
  function BankTable(): (table: seq<Bank>)
    ensures |table| == MAX_HBM_BANKCOUNT
  {
    seq(MAX_HBM_BANKCOUNT, i requires 0 <= i => if i < NAMED_BANKS then Numbered(i) else None)
  }

  /** The table entry that buffer i is tied to: every bank with pseudo channels, every second one without. */
  function EntryFor(i: nat, pseudoChannel: bool): nat {
    if pseudoChannel then i else 2 * i
  }

  /** Bank n of 256 megabytes begins where the remapping, which counts rows of eight bytes, looks for part i. */
  predicate InItsBank(b: Bank, i: nat, pseudoChannel: bool) {
    b.Numbered? && b.n * 0x1000_0000 == i * Stride(pseudoChannel) * 8
  }

  /** The loop that ties buffers to banks; an access behind the end of one of the arrays stops it. */
  method MapBuffers(hbmNum: nat, pseudoChannel: bool) returns (inBounds: bool, mBankMem: array<Bank>)
    ensures fresh(mBankMem) && mBankMem.Length == MAX_BUFFERS
    ensures inBounds <==> hbmNum <= MAX_BUFFERS
    ensures forall i: nat :: inBounds && i < hbmNum ==>
              EntryFor(i, pseudoChannel) < |BankTable()| && mBankMem[i] == BankTable()[EntryFor(i, pseudoChannel)]
  {
    mBankMem := new Bank[MAX_BUFFERS](_ => None);
    var banks := BankTable();
    for i := 0 to hbmNum
      invariant i <= MAX_BUFFERS
      invariant forall k: nat :: k < i ==> mBankMem[k] == BankTable()[EntryFor(k, pseudoChannel)]
    {
      var entry := if pseudoChannel then i else 2 * i;
      if i >= mBankMem.Length || entry >= |banks| {
        return false, mBankMem;
      }
      mBankMem[i] := banks[entry];
    }
    inBounds := true;
  }

  /** The set-up works: no array is overrun, and every part of the table gets a buffer in its bank. */
  predicate SetsUp(hbmNum: nat, pseudoChannel: bool) {
    hbmNum <= MAX_BUFFERS && forall i: nat :: i < hbmNum ==> PartPlaced(i, pseudoChannel)
  }

  predicate PartPlaced(i: nat, pseudoChannel: bool) {
    EntryFor(i, pseudoChannel) < |BankTable()| && InItsBank(BankTable()[EntryFor(i, pseudoChannel)], i, pseudoChannel)
  }

  lemma PartPlacedExactly(i: nat, pseudoChannel: bool)
    ensures PartPlaced(i, pseudoChannel) <==> EntryFor(i, pseudoChannel) < NAMED_BANKS
  {
  }

  /**
    Of the bank counts that pass validation, 2, 4 and 8 can be set up in both modes, 16 with pseudo channels only, 32
    never.
  */
  lemma SetsUpExactly(hbmNum: nat, pseudoChannel: bool)
    requires hbmNum in {2, 4, 8, 16, 32}
    ensures SetsUp(hbmNum, pseudoChannel) <==> hbmNum <= 8 || (hbmNum == 16 && pseudoChannel)
  {
    forall i: nat
      ensures PartPlaced(i, pseudoChannel) <==> EntryFor(i, pseudoChannel) < NAMED_BANKS
    {
      PartPlacedExactly(i, pseudoChannel);
    }
    if hbmNum == 16 && !pseudoChannel {
      assert !PartPlaced(10, false);
    }
  }

  /** Thirty-two buffers, accepted by validation, overrun the sixteen-element arrays. */
  lemma ThirtyTwoOverruns(pseudoChannel: bool)
    ensures !SetsUp(32, pseudoChannel)
  {
    SetsUpExactly(32, pseudoChannel);
  }

  /** Sixteen buffers without pseudo channels: the eleventh gets no bank. */
  lemma SixteenWithoutChannels()
    ensures !SetsUp(16, false) && EntryFor(10, false) < |BankTable()| && BankTable()[EntryFor(10, false)] == None
  {
    SetsUpExactly(16, false);
  }

  /** With the flags that the loop sets, all buffers are in their banks exactly when the set-up works. */
  lemma FlagsPlaced(hbmNum: nat, pseudoChannel: bool, flags: seq<Bank>)
    requires hbmNum <= MAX_BUFFERS == |flags|
    requires forall i: nat :: i < hbmNum ==>
               EntryFor(i, pseudoChannel) < |BankTable()| && flags[i] == BankTable()[EntryFor(i, pseudoChannel)]
    ensures (forall i: nat :: i < hbmNum ==> InItsBank(flags[i], i, pseudoChannel)) <==> SetsUp(hbmNum, pseudoChannel)
  {
    hide InItsBank, BankTable, EntryFor;
    forall i: nat | i < hbmNum
      ensures InItsBank(flags[i], i, pseudoChannel) <==> PartPlaced(i, pseudoChannel)
    {
    }
  }

  /** The bank count is refused, an array is overrun, a buffer has no bank of its own, or all rows are gathered. */
  datatype Outcome = Rejected | Overrun | Misplaced | Gathered(out: array<G.Burst>)

  /** Where the buffers begin, if every one of them is in its bank. */
  method BufferStarts(hbmNum: nat, pseudoChannel: bool, mBankMem: seq<Bank>) returns (ok: bool, starts: seq<nat>)
    requires hbmNum <= |mBankMem|
    ensures ok <==> forall i: nat :: i < hbmNum ==> InItsBank(mBankMem[i], i, pseudoChannel)
    ensures ok ==> BuffersApart(starts, hbmNum, Stride(pseudoChannel))
  {
    starts := [];
    for i := 0 to hbmNum
      invariant forall k: nat :: k < i ==> InItsBank(mBankMem[k], k, pseudoChannel)
      invariant BuffersApart(starts, i, Stride(pseudoChannel))
    {
      if !InItsBank(mBankMem[i], i, pseudoChannel) {
        return false, [];
      }
      starts := starts + [mBankMem[i].n * 0x1000_0000 / ROW_BYTES];
    }
    ok := true;
  }

  /**
    From the command line's bank count and channel mode to a gathered block: it succeeds exactly for 2, 4
    and 8 banks, and for 16 with pseudo channels, and then every row is the one its index points to.
  */
  method GatherOnHost(hbmNum: int, pseudoChannel: bool, stream: nat, a: seq<Row>, input: array<int>)
    returns (outcome: Outcome)
    requires G.StreamCount(stream) && |a| == ROWS && input.Length % 16 == 0
    requires forall i :: 0 <= i < input.Length ==> 0 <= input[i] < |a|
    ensures outcome.Rejected? <==> hbmNum !in {2, 4, 8, 16, 32}
    ensures outcome.Gathered? <==> hbmNum in {2, 4, 8} || (hbmNum == 16 && pseudoChannel)
    ensures outcome.Gathered? ==> 4 * outcome.out.Length == input.Length
    ensures outcome.Gathered? ==> forall e: nat :: e < input.Length ==> RowOf(outcome.out[..], e) == a[input[e]]
  {
    hide InItsBank, BankTable, EntryFor, SetsUp, PartPlaced, Stride;
    var valid := ValidateBankCount(hbmNum);
    if !valid {
      return Rejected;
    }
    AcceptedCountsFit(hbmNum, pseudoChannel);
    SetsUpExactly(hbmNum, pseudoChannel);
    var inBounds, mBankMem := MapBuffers(hbmNum, pseudoChannel);
    if !inBounds {
      return Overrun;
    }
    FlagsPlaced(hbmNum, pseudoChannel, mBankMem[..]);
    var ok, starts := BufferStarts(hbmNum, pseudoChannel, mBankMem[..]);
    if !ok {
      return Misplaced;
    }
    var out := GatherBlock(stream, a, input, starts, hbmNum, ROWS / hbmNum, Stride(pseudoChannel));
    return Gathered(out);
  }
}
