/**
  The gather kernel run stage by stage, in the loop structure of `gather.cpp`: bursts of indices are
  dealt to worker streams, each worker looks up its rows, and the rows are collected into bursts again.
*/
module Gather {
  import opened Machine
  import opened Interleave
  import opened Streams
  import GatherNetwork

  const MAX_STREAM: nat := 16
  const IN_ENTRIES_PER_BURST: nat := 8
  const OUT_ENTRIES_PER_BURST: nat := 4
  const OUT_IN_RATIO: nat := 2

  type Burst = b: seq<int> | |b| == 8 witness [0, 0, 0, 0, 0, 0, 0, 0]

  /** The stream counts an opmode can select. */
  predicate StreamCount(stream: nat) {
    stream in {1, 2, 4, 8, 16}
  }

  function TableWord(ddr: seq<Burst>, addr: int, word: nat): int
    requires word < 2
  {
    GatherNetwork.TableWord(ddr, addr, word)
  }

  function EntryAt(inBuf: seq<Burst>, e: nat): int
    requires e < 8 * |inBuf|
  {
    inBuf[e / 8][e % 8]
  }

  /** The first e entries of `all` lie in their streams: stream w holds, at position i, entry i * stream + w. */
  ghost predicate Dealt(q: seq<seq<int>>, stream: nat, all: nat -> int, e: nat)
    requires stream > 0
  {
    && |q| == MAX_STREAM
    && (forall w: nat :: w < MAX_STREAM ==> |q[w]| == if w < stream then Share(stream, w, e) else 0)
    && forall w: nat, i: nat :: w < MAX_STREAM && i < |q[w]| ==> q[w][i] == all(i * stream + w)
  }

  lemma DealtStep(q: seq<seq<int>>, stream: nat, all: nat -> int, e: nat, w: nat)
    requires 0 < stream <= MAX_STREAM && Dealt(q, stream, all, e) && w == e % stream
    ensures w < MAX_STREAM && Dealt(q[w := q[w] + [all(e)]], stream, all, e + 1)
  {
    QuotientStep(stream, e);
    forall v: nat | v < stream
      ensures Share(stream, v, e + 1) == Share(stream, v, e) + (if v == w then 1 else 0)
    {
      ShareStep(stream, v, e);
    }
    ShareStep(stream, w, e);
    assert |q[w]| == e / stream;
  }

  /** Streams an input buffer burst by burst. */
  method GatherReadInBurstOnly(inBufSel: seq<Burst>, inBurstStream: Stream<Burst>)
    requires inBurstStream.q == []
    modifies inBurstStream
    ensures inBurstStream.q == inBufSel
  {
    for burstCount := 0 to |inBufSel|
      invariant inBurstStream.q == inBufSel[..burstCount]
    {
      inBurstStream.Write(inBufSel[burstCount]);
    }
  }

  /** A burst dealt in rounds, when there are no more streams than entries per burst. */
  method DealRounds(stream: nat, burst: Burst, ghost b: nat, dinstream: StreamArray<int>, ghost all: nat -> int)
    requires 0 < stream <= 8 && 8 % stream == 0
    requires forall j: nat :: j < 8 ==> all(8 * b + j) == burst[j]
    requires Dealt(dinstream.q, stream, all, 8 * b)
    modifies dinstream
    ensures Dealt(dinstream.q, stream, all, 8 * b + 8)
  {
    Whole(8, stream);
    for i := 0 to IN_ENTRIES_PER_BURST / stream
      invariant Dealt(dinstream.q, stream, all, 8 * b + i * stream)
    {
      for idx := 0 to stream
        invariant Dealt(dinstream.q, stream, all, 8 * b + i * stream + idx)
      {
        RoundLane(stream, 8, b, i, idx);
        DealtStep(dinstream.q, stream, all, 8 * b + i * stream + idx, idx);
        dinstream.Write(idx, burst[i * stream + idx]);
      }
      RoundLane(stream, 8, b, i, 0);
    }
  }

  /** Where round i, position idx of a burst of k entries lies, when the streams divide the burst. */
  lemma RoundLane(stream: nat, k: nat, b: nat, i: nat, idx: nat)
    requires 0 < stream <= k && k % stream == 0 && i < k / stream && idx < stream
    ensures 0 <= i * stream + idx < k && (b * k + i * stream + idx) % stream == idx
    ensures i * stream + stream == (i + 1) * stream <= k
  {
    Whole(k, stream);
    Distribute(i, 1, stream);
    ProductGap(i, k / stream, stream);
    LaneIsRoundRobin(stream, k, b, i * stream + idx);
    DivideUnique(i * stream + idx, stream, i, idx);
  }

  /** A burst dealt to its group of eight streams, when there are more streams than entries per burst. */
  method DealGroup(stream: nat, burst: Burst, b: nat, dinstream: StreamArray<int>, ghost all: nat -> int)
    requires 8 < stream <= 16 && stream % 8 == 0
    requires forall j: nat :: j < 8 ==> all(8 * b + j) == burst[j]
    requires Dealt(dinstream.q, stream, all, 8 * b)
    modifies dinstream
    ensures Dealt(dinstream.q, stream, all, 8 * b + 8)
  {
    for idx := 0 to IN_ENTRIES_PER_BURST
      invariant Dealt(dinstream.q, stream, all, 8 * b + idx)
    {
      LaneIsRoundRobin(stream, 8, b, idx);
      var lane := (b % (stream / IN_ENTRIES_PER_BURST)) * IN_ENTRIES_PER_BURST + idx;
      DealtStep(dinstream.q, stream, all, 8 * b + idx, lane);
      dinstream.Write(lane, burst[idx]);
    }
  }

  /** Deals the entries of every burst to the worker streams, in one of two layouts. */
  method GatherReadIn(stream: nat, ghost inBuf: seq<Burst>, totalInBurst: nat, inBurstStream: Stream<Burst>,
                      dinstream: StreamArray<int>, ghost all: nat -> int)
    requires StreamCount(stream) && totalInBurst == |inBuf| && inBurstStream.q == inBuf
    requires forall e: nat :: e < 8 * |inBuf| ==> all(e) == EntryAt(inBuf, e)
    requires Dealt(dinstream.q, stream, all, 0)
    modifies inBurstStream, dinstream
    ensures inBurstStream.q == []
    ensures Dealt(dinstream.q, stream, all, 8 * totalInBurst)
  {
    for burstCount := 0 to totalInBurst
      invariant inBurstStream.q == inBuf[burstCount..]
      invariant Dealt(dinstream.q, stream, all, 8 * burstCount)
    {
      var burst := inBurstStream.Read();
      assert forall j: nat :: j < 8 ==> all(8 * burstCount + j) == EntryAt(inBuf, 8 * burstCount + j) == burst[j];
      if stream <= IN_ENTRIES_PER_BURST {
        DealRounds(stream, burst, burstCount, dinstream, all);
      } else {
        DealGroup(stream, burst, burstCount, dinstream, all);
      }
    }
  }

  function Looked(ddr: seq<Burst>, addrs: seq<int>, word: nat): (ws: seq<int>)
    requires word < 2
    ensures |ws| == |addrs| && forall i :: 0 <= i < |ws| ==> ws[i] == TableWord(ddr, addrs[i], word)
  {
    seq(|addrs|, i requires 0 <= i < |addrs| => TableWord(ddr, addrs[i], word))
  }

  /** Entry by entry, the table words that the entries of a block point to. */
  ghost function WordsOf(ddr: seq<Burst>, all: nat -> int, word: nat): nat -> int
    requires word < 2
  {
    (e: nat) => TableWord(ddr, all(e), word)
  }

  ghost function EntriesOf(inBuf: seq<Burst>): nat -> int {
    (e: nat) => if e < 8 * |inBuf| then EntryAt(inBuf, e) else 0
  }

  predicate InRange(ddr: seq<Burst>, addr: int) {
    0 <= addr < 4 * |ddr|
  }

  /** One worker: fetches the burst that holds each row and cuts the row's two words out of it. */
  method ReadAWork(go: bool, totalWork: nat, w: nat, dinstream: StreamArray<int>, doutmeasurestream: StreamArray<int>,
                   doutgroupstream: StreamArray<int>, ddr: seq<Burst>)
    requires dinstream != doutmeasurestream && dinstream != doutgroupstream && doutmeasurestream != doutgroupstream
    requires w < |dinstream.q| == |doutmeasurestream.q| == |doutgroupstream.q|
    requires go ==> |dinstream.q[w]| == totalWork
    requires go ==> forall i :: 0 <= i < totalWork ==> InRange(ddr, dinstream.q[w][i])
    requires doutmeasurestream.q[w] == [] && doutgroupstream.q[w] == []
    modifies dinstream, doutmeasurestream, doutgroupstream
    ensures dinstream.q == if go then old(dinstream.q)[w := []] else old(dinstream.q)
    ensures doutmeasurestream.q == if go then old(doutmeasurestream.q)[w := Looked(ddr, old(dinstream.q[w]), 0)]
        else old(doutmeasurestream.q)
    ensures doutgroupstream.q == if go then old(doutgroupstream.q)[w := Looked(ddr, old(dinstream.q[w]), 1)]
        else old(doutgroupstream.q)
  {
    ghost var addrs := dinstream.q[w];
    for i := 0 to totalWork
      invariant !go ==> dinstream.q == old(dinstream.q)
      invariant !go ==> doutmeasurestream.q == old(doutmeasurestream.q) && doutgroupstream.q == old(doutgroupstream.q)
      invariant go ==> dinstream.q == old(dinstream.q)[w := addrs[i..]]
      invariant go ==> doutmeasurestream.q == old(doutmeasurestream.q)[w := Looked(ddr, addrs[..i], 0)]
      invariant go ==> doutgroupstream.q == old(doutgroupstream.q)[w := Looked(ddr, addrs[..i], 1)]
    {
      if go {
        var addrA := dinstream.Read(w);
        assert addrA == addrs[i];
        var burstAddrA := addrA / OUT_ENTRIES_PER_BURST;
        var offsetA0 := 2 * (addrA % OUT_ENTRIES_PER_BURST);
        var offsetA1 := 2 * (addrA % OUT_ENTRIES_PER_BURST) + 1;
        var dout := ddr[burstAddrA];
        doutmeasurestream.Write(w, dout[offsetA0]);
        doutgroupstream.Write(w, dout[offsetA1]);
        assert Looked(ddr, addrs[..i + 1], 0) == Looked(ddr, addrs[..i], 0) + [dout[offsetA0]];
        assert Looked(ddr, addrs[..i + 1], 1) == Looked(ddr, addrs[..i], 1) + [dout[offsetA1]];
      }
    }
    assert go ==> addrs[..totalWork] == addrs;
  }

  /** All workers, of which the first `stream` run. */
  method GatherReadAll(stream: nat, totalInWork: nat, dinstream: StreamArray<int>, doutmeasurestream: StreamArray<int>,
                       doutgroupstream: StreamArray<int>, ddr: seq<Burst>, ghost all: nat -> int)
    requires dinstream != doutmeasurestream && dinstream != doutgroupstream && doutmeasurestream != doutgroupstream
    requires 0 < stream <= MAX_STREAM && totalInWork % stream == 0
    requires Dealt(dinstream.q, stream, all, totalInWork)
    requires forall e: nat :: e < totalInWork ==> InRange(ddr, all(e))
    requires Dealt(doutmeasurestream.q, stream, all, 0) && Dealt(doutgroupstream.q, stream, all, 0)
    modifies dinstream, doutmeasurestream, doutgroupstream
    ensures Dealt(dinstream.q, stream, all, 0)
    ensures Dealt(doutmeasurestream.q, stream, WordsOf(ddr, all, 0), totalInWork)
    ensures Dealt(doutgroupstream.q, stream, WordsOf(ddr, all, 1), totalInWork)
  {
    ghost var din := dinstream.q;
    EmptyLanes(stream);
    for id := 0 to MAX_STREAM
      invariant |dinstream.q| == |doutmeasurestream.q| == |doutgroupstream.q| == MAX_STREAM
      invariant forall w :: 0 <= w < MAX_STREAM ==> dinstream.q[w] == if w < id then [] else din[w]
      invariant forall w :: 0 <= w < MAX_STREAM ==> doutmeasurestream.q[w] == if w < id then Looked(ddr, din[w], 0)
          else []
      invariant forall w :: 0 <= w < MAX_STREAM ==> doutgroupstream.q[w] == if w < id then Looked(ddr, din[w], 1)
          else []
    {
      var go := id < stream;
      var totalWork := totalInWork / stream;
      if go {
        LaneInRange(stream, totalInWork, id);
        assert forall i: nat :: i < |din[id]| ==> din[id][i] == all(i * stream + id);
        forall i: nat | i < totalWork
          ensures InRange(ddr, din[id][i])
        {
          LaneEntry(stream, totalInWork, id, i);
        }
      }
      ReadAWork(go, totalWork, id, dinstream, doutmeasurestream, doutgroupstream, ddr);
    }
  }

  lemma EmptyLanes(stream: nat)
    requires stream > 0
    ensures forall w: nat :: Share(stream, w, 0) == 0
  {
    DivideUnique(0, stream, 0, 0);
  }

  lemma LaneInRange(stream: nat, total: nat, w: nat)
    requires 0 < stream && total % stream == 0
    ensures Share(stream, w, total) == total / stream
  {
  }

  lemma LaneEntry(stream: nat, total: nat, w: nat, i: nat)
    requires 0 < stream && total % stream == 0 && w < stream && i < total / stream
    ensures 0 <= i * stream + w < total
  {
    Whole(total, stream);
    ProductGap(i, total / stream, stream);
  }

  // ----- collecting -----

  /** What is left in the result streams once the first e rows have been collected. */
  ghost predicate Pending(q: seq<seq<int>>, stream: nat, all: nat -> int, e: nat, total: nat)
    requires stream > 0
  {
    && |q| == MAX_STREAM
    && (forall w: nat :: w < stream && w < MAX_STREAM ==> |q[w]| == Share(stream, w, total) - Share(stream, w, e))
    && (forall w: nat :: stream <= w < MAX_STREAM ==> q[w] == [])
    && forall w: nat, i: nat :: w < MAX_STREAM && i < |q[w]| ==> q[w][i] == all((i + Share(stream, w, e)) * stream + w)
  }

  lemma PendingStart(q: seq<seq<int>>, stream: nat, all: nat -> int, total: nat)
    requires 0 < stream <= MAX_STREAM && Dealt(q, stream, all, total)
    ensures Pending(q, stream, all, 0, total)
  {
    EmptyLanes(stream);
  }

  lemma PendingStep(q: seq<seq<int>>, stream: nat, all: nat -> int, e: nat, total: nat, w: nat)
    requires 0 < stream <= MAX_STREAM && total % stream == 0 && e < total
    requires Pending(q, stream, all, e, total) && w == e % stream
    ensures w < MAX_STREAM && |q[w]| > 0 && q[w][0] == all(e)
    ensures Pending(q[w := q[w][1..]], stream, all, e + 1, total)
  {
    QuotientStep(stream, e);
    forall v: nat | v < stream
      ensures Share(stream, v, e + 1) == Share(stream, v, e) + (if v == w then 1 else 0)
    {
      ShareStep(stream, v, e);
    }
    ShareStep(stream, w, e);
    LaneInRange(stream, total, w);
    Whole(total, stream);
    QuotientBelow(stream, e, total / stream);
    assert q[w][0] == all((0 + Share(stream, w, e)) * stream + w);
  }

  /** Positions 0..j of the burst under assembly hold the rows from entry `first` on. */
  ghost predicate Assembled(dout: array<int>, j: nat, first: nat, am: nat -> int, ag: nat -> int)
    reads dout
  {
    && dout.Length == 8 && j <= 4
    && forall i: nat :: i < j ==> dout[2 * i] == am(first + i) && dout[2 * i + 1] == ag(first + i)
  }

  /** Both words of the next row, from stream w into position j of the burst. */
  method CollectRow(stream: nat, w: nat, j: nat, ghost first: nat, ghost total: nat,
                    doutmeasurestream: StreamArray<int>, doutgroupstream: StreamArray<int>, dout: array<int>,
                    ghost am: nat -> int, ghost ag: nat -> int)
    requires doutmeasurestream != doutgroupstream
    requires 0 < stream <= MAX_STREAM && total % stream == 0 && first + j < total && w == (first + j) % stream
    requires Pending(doutmeasurestream.q, stream, am, first + j, total)
    requires Pending(doutgroupstream.q, stream, ag, first + j, total)
    requires j < 4 && Assembled(dout, j, first, am, ag)
    modifies doutmeasurestream, doutgroupstream, dout
    ensures Pending(doutmeasurestream.q, stream, am, first + j + 1, total)
    ensures Pending(doutgroupstream.q, stream, ag, first + j + 1, total)
    ensures Assembled(dout, j + 1, first, am, ag)
  {
    PendingStep(doutmeasurestream.q, stream, am, first + j, total, w);
    PendingStep(doutgroupstream.q, stream, ag, first + j, total, w);
    var m := doutmeasurestream.Read(w);
    var g := doutgroupstream.Read(w);
    dout[OUT_IN_RATIO * j + 0] := m;
    dout[OUT_IN_RATIO * j + 1] := g;
  }

  /** One output burst collected in rounds, when there are no more streams than rows per burst. */
  method CollectRounds(stream: nat, ghost b: nat, ghost total: nat, doutmeasurestream: StreamArray<int>,
                       doutgroupstream: StreamArray<int>, dout: array<int>, ghost am: nat -> int, ghost ag: nat -> int)
    requires doutmeasurestream != doutgroupstream
    requires 0 < stream <= 4 && 4 % stream == 0 && total % stream == 0 && 4 * b + 4 <= total
    requires Pending(doutmeasurestream.q, stream, am, 4 * b, total)
    requires Pending(doutgroupstream.q, stream, ag, 4 * b, total)
    requires dout.Length == 8
    modifies doutmeasurestream, doutgroupstream, dout
    ensures Pending(doutmeasurestream.q, stream, am, 4 * b + 4, total)
    ensures Pending(doutgroupstream.q, stream, ag, 4 * b + 4, total)
    ensures Assembled(dout, 4, 4 * b, am, ag)
  {
    hide Pending, Assembled;
    NothingAssembled(dout, 4 * b, am, ag);
    Whole(4, stream);
    ghost var done := 0;
    for cycleCount := 0 to OUT_ENTRIES_PER_BURST / stream
      invariant done == cycleCount * stream <= 4
      invariant Pending(doutmeasurestream.q, stream, am, 4 * b + done, total)
      invariant Pending(doutgroupstream.q, stream, ag, 4 * b + done, total)
      invariant dout.Length == 8 && Assembled(dout, done, 4 * b, am, ag)
    {
      RoundLane(stream, 4, b, cycleCount, 0);
      CollectRound(stream, cycleCount, done, b, total, doutmeasurestream, doutgroupstream, dout, am, ag);
      done := done + stream;
    }
  }

  lemma NothingAssembled(dout: array<int>, first: nat, am: nat -> int, ag: nat -> int)
    requires dout.Length == 8
    ensures Assembled(dout, 0, first, am, ag)
  {
  }

  /** One round: the next row of every stream. */
  method CollectRound(stream: nat, cycleCount: nat, ghost done: nat, ghost b: nat, ghost total: nat,
                      doutmeasurestream: StreamArray<int>, doutgroupstream: StreamArray<int>, dout: array<int>,
                      ghost am: nat -> int, ghost ag: nat -> int)
    requires doutmeasurestream != doutgroupstream
    requires 0 < stream <= 4 && 4 % stream == 0 && total % stream == 0 && 4 * b + 4 <= total
    requires cycleCount < 4 / stream && done == cycleCount * stream
    requires Pending(doutmeasurestream.q, stream, am, 4 * b + done, total)
    requires Pending(doutgroupstream.q, stream, ag, 4 * b + done, total)
    requires dout.Length == 8 && Assembled(dout, done, 4 * b, am, ag)
    modifies doutmeasurestream, doutgroupstream, dout
    ensures Pending(doutmeasurestream.q, stream, am, 4 * b + done + stream, total)
    ensures Pending(doutgroupstream.q, stream, ag, 4 * b + done + stream, total)
    ensures Assembled(dout, done + stream, 4 * b, am, ag)
  {
    hide Pending, Assembled;
    for idx := 0 to stream
      invariant Pending(doutmeasurestream.q, stream, am, 4 * b + done + idx, total)
      invariant Pending(doutgroupstream.q, stream, ag, 4 * b + done + idx, total)
      invariant Assembled(dout, done + idx, 4 * b, am, ag)
    {
      var j := stream * cycleCount + idx;
      RoundLane(stream, 4, b, cycleCount, idx);
      CollectRow(stream, idx, j, 4 * b, total, doutmeasurestream, doutgroupstream, dout, am, ag);
    }
  }

  /** One output burst collected from its group of four streams, when there are more streams than rows per burst. */
  method CollectGroup(stream: nat, b: nat, ghost total: nat, doutmeasurestream: StreamArray<int>,
                      doutgroupstream: StreamArray<int>, dout: array<int>, ghost am: nat -> int, ghost ag: nat -> int)
    requires doutmeasurestream != doutgroupstream
    requires 4 < stream <= 16 && stream % 4 == 0 && total % stream == 0 && 4 * b + 4 <= total
    requires Pending(doutmeasurestream.q, stream, am, 4 * b, total)
    requires Pending(doutgroupstream.q, stream, ag, 4 * b, total)
    requires dout.Length == 8
    modifies doutmeasurestream, doutgroupstream, dout
    ensures Pending(doutmeasurestream.q, stream, am, 4 * b + 4, total)
    ensures Pending(doutgroupstream.q, stream, ag, 4 * b + 4, total)
    ensures Assembled(dout, 4, 4 * b, am, ag)
  {
    hide Pending, Assembled;
    NothingAssembled(dout, 4 * b, am, ag);
    for entry := 0 to OUT_ENTRIES_PER_BURST
      invariant Pending(doutmeasurestream.q, stream, am, 4 * b + entry, total)
      invariant Pending(doutgroupstream.q, stream, ag, 4 * b + entry, total)
      invariant Assembled(dout, entry, 4 * b, am, ag)
    {
      LaneIsRoundRobin(stream, 4, b, entry);
      var lane := (b % (stream / OUT_ENTRIES_PER_BURST)) * OUT_ENTRIES_PER_BURST + entry;
      CollectRow(stream, lane, entry, 4 * b, total, doutmeasurestream, doutgroupstream, dout, am, ag);
    }
  }

  /** Bursts of rows: four rows each, measure and group side by side. */
  ghost predicate Rows(out: seq<Burst>, n: nat, am: nat -> int, ag: nat -> int) {
    && |out| == n
    && forall b: nat, r: nat :: b < n && r < 4 ==> out[b][2 * r] == am(4 * b + r) && out[b][2 * r + 1] == ag(4 * b + r)
  }

  lemma RowsStep(out: seq<Burst>, n: nat, dout: Burst, am: nat -> int, ag: nat -> int)
    requires Rows(out, n, am, ag)
    requires forall r: nat :: r < 4 ==> dout[2 * r] == am(4 * n + r) && dout[2 * r + 1] == ag(4 * n + r)
    ensures Rows(out + [dout], n + 1, am, ag)
  {
  }

  /** The next output burst, in the layout for the stream count. */
  method CollectBurst(stream: nat, b: nat, ghost total: nat, doutmeasurestream: StreamArray<int>,
                      doutgroupstream: StreamArray<int>, dout: array<int>, ghost am: nat -> int, ghost ag: nat -> int)
    requires doutmeasurestream != doutgroupstream
    requires StreamCount(stream) && total % stream == 0 && 4 * b + 4 <= total
    requires Pending(doutmeasurestream.q, stream, am, 4 * b, total)
    requires Pending(doutgroupstream.q, stream, ag, 4 * b, total)
    requires dout.Length == 8
    modifies doutmeasurestream, doutgroupstream, dout
    ensures Pending(doutmeasurestream.q, stream, am, 4 * (b + 1), total)
    ensures Pending(doutgroupstream.q, stream, ag, 4 * (b + 1), total)
    ensures Assembled(dout, 4, 4 * b, am, ag)
  {
    if stream <= OUT_ENTRIES_PER_BURST {
      CollectRounds(stream, b, total, doutmeasurestream, doutgroupstream, dout, am, ag);
    } else {
      CollectGroup(stream, b, total, doutmeasurestream, doutgroupstream, dout, am, ag);
    }
  }

  /** Collects the result streams into output bursts. */
  method GatherWriteOut(stream: nat, totalOutBurst: nat, doutmeasurestream: StreamArray<int>,
                        doutgroupstream: StreamArray<int>, outBurstStream: Stream<Burst>, ghost am: nat -> int,
                        ghost ag: nat -> int)
    requires doutmeasurestream != doutgroupstream
    requires StreamCount(stream) && (4 * totalOutBurst) % stream == 0
    requires Dealt(doutmeasurestream.q, stream, am, 4 * totalOutBurst)
    requires Dealt(doutgroupstream.q, stream, ag, 4 * totalOutBurst)
    requires outBurstStream.q == []
    modifies doutmeasurestream, doutgroupstream, outBurstStream
    ensures Rows(outBurstStream.q, totalOutBurst, am, ag)
    ensures forall w :: 0 <= w < MAX_STREAM ==> w < |doutmeasurestream.q| && doutmeasurestream.q[w] == []
    ensures forall w :: 0 <= w < MAX_STREAM ==> w < |doutgroupstream.q| && doutgroupstream.q[w] == []
  {
    ghost var total := 4 * totalOutBurst;
    PendingStart(doutmeasurestream.q, stream, am, total);
    PendingStart(doutgroupstream.q, stream, ag, total);
    var dout := new int[8];
    for burstCount := 0 to totalOutBurst
      invariant Pending(doutmeasurestream.q, stream, am, 4 * burstCount, total)
      invariant Pending(doutgroupstream.q, stream, ag, 4 * burstCount, total)
      invariant Rows(outBurstStream.q, burstCount, am, ag)
    {
      CollectBurst(stream, burstCount, total, doutmeasurestream, doutgroupstream, dout, am, ag);
      RowsStep(outBurstStream.q, burstCount, dout[..], am, ag);
      outBurstStream.Write(dout[..]);
    }
  }

  /** Stores the output bursts. */
  method GatherWriteOutResultOnly(totalOutBurst: nat, outBurstStream: Stream<Burst>, outBufSel: array<Burst>)
    requires |outBurstStream.q| == totalOutBurst <= outBufSel.Length
    modifies outBurstStream, outBufSel
    ensures outBufSel[..totalOutBurst] == old(outBurstStream.q)
  {
    ghost var all := outBurstStream.q;
    for burstCount := 0 to totalOutBurst
      invariant outBurstStream.q == all[burstCount..]
      invariant outBufSel[..burstCount] == all[..burstCount]
    {
      var burst := outBurstStream.Read();
      outBufSel[burstCount] := burst;
    }
  }

  /** Row e of an output buffer and row `addr` of the table are the same two words. */
  predicate SameRow(out: seq<Burst>, e: nat, ddr: seq<Burst>, addr: int)
    requires e < 4 * |out|
  {
    && out[e / 4][2 * (e % 4)] == TableWord(ddr, addr, 0)
    && out[e / 4][2 * (e % 4) + 1] == TableWord(ddr, addr, 1)
  }

  /** The whole kernel on one block: row e of the output is the table row that entry e of the input points to. */
  method RunGather(stream: nat, inBuf: seq<Burst>, ddr: seq<Burst>, outBuf: array<Burst>)
    requires StreamCount(stream) && |inBuf| % 2 == 0 && outBuf.Length == 2 * |inBuf|
    requires forall e: nat :: e < 8 * |inBuf| ==> InRange(ddr, EntryAt(inBuf, e))
    modifies outBuf
    ensures forall e: nat :: e < 8 * |inBuf| ==> SameRow(outBuf[..], e, ddr, EntryAt(inBuf, e))
  {
    ghost var all := EntriesOf(inBuf);
    ghost var am := WordsOf(ddr, all, 0);
    ghost var ag := WordsOf(ddr, all, 1);
    EmptyLanes(stream);
    BlockDividesEvenly(stream, |inBuf|);
    var inBurstStream := new Stream<Burst>();
    var outBurstStream := new Stream<Burst>();
    var dinstream := new StreamArray<int>(MAX_STREAM);
    var doutmeasurestream := new StreamArray<int>(MAX_STREAM);
    var doutgroupstream := new StreamArray<int>(MAX_STREAM);
    GatherReadInBurstOnly(inBuf, inBurstStream);
    GatherReadIn(stream, inBuf, |inBuf|, inBurstStream, dinstream, all);
    GatherReadAll(stream, 8 * |inBuf|, dinstream, doutmeasurestream, doutgroupstream, ddr, all);
    GatherWriteOut(stream, 2 * |inBuf|, doutmeasurestream, doutgroupstream, outBurstStream, am, ag);
    ghost var result := outBurstStream.q;
    GatherWriteOutResultOnly(2 * |inBuf|, outBurstStream, outBuf);
    assert outBuf[..] == outBuf[..2 * |inBuf|] == result;
    RowsAreSame(inBuf, ddr, outBuf[..], am, ag);
  }

  lemma RowsAreSame(inBuf: seq<Burst>, ddr: seq<Burst>, out: seq<Burst>, am: nat -> int, ag: nat -> int)
    requires Rows(out, 2 * |inBuf|, am, ag)
    requires forall e: nat :: e < 8 * |inBuf| ==> am(e) == TableWord(ddr, EntryAt(inBuf, e), 0)
    requires forall e: nat :: e < 8 * |inBuf| ==> ag(e) == TableWord(ddr, EntryAt(inBuf, e), 1)
    ensures forall e: nat :: e < 8 * |inBuf| ==> SameRow(out, e, ddr, EntryAt(inBuf, e))
  {
    forall e: nat | e < 8 * |inBuf|
      ensures SameRow(out, e, ddr, EntryAt(inBuf, e))
    {
      assert 4 * (e / 4) + e % 4 == e;
    }
  }

  lemma BlockDividesEvenly(stream: nat, n: nat)
    requires StreamCount(stream) && n % 2 == 0
    ensures (8 * n) % stream == 0
  {
    var c, h := 16 / stream, n / 2;
    assert c * stream == 16;
    Associate(h, c, stream);
    DivideUnique(8 * n, stream, h * c, 0);
  }
}
