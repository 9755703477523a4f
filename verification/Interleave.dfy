/**
  How the gather kernel deals entries to its worker streams and collects them again. `stream` workers
  share the entries of bursts of `k` entries each. With no more streams than entries per burst a burst
  is dealt in rounds; with more, each burst feeds one group of k streams and the groups take turns.
*/
module Interleave {
  import opened Machine

  /** Either the streams divide a burst evenly, or the bursts divide the streams evenly. */
  predicate Compatible(stream: nat, k: nat) {
    stream > 0 && k > 0 && (if stream <= k then k % stream == 0 else stream % k == 0)
  }

  /** The stream that position j of burst b goes through, in the index arithmetic of the two layouts. */
  function Lane(stream: nat, k: nat, b: nat, j: nat): (w: nat)
    requires Compatible(stream, k)
  {
    if stream <= k then j % stream else (b % (stream / k)) * k + j
  }

  lemma FewStreams(stream: nat, c: nat, b: nat, j: nat)
    requires stream > 0
    ensures (b * (c * stream) + j) % stream == j % stream
  {
    var q, r := j / stream, j % stream;
    Associate(b, c, stream);
    Distribute(b * c, q, stream);
    DivideUnique(b * (c * stream) + j, stream, b * c + q, r);
  }

  lemma ManyStreams(k: nat, c: nat, b: nat, j: nat)
    requires j < k && c > 0
    ensures 0 <= (b % c) * k + j < c * k
    ensures (b * k + j) % (c * k) == (b % c) * k + j
  {
    var q, r := b / c, b % c;
    Associate(q, c, k);
    Distribute(q * c, r, k);
    ProductGap(r, c, k);
    Distribute(r, 0, k);
    DivideUnique(b * k + j, c * k, q, r * k + j);
  }

  /** Both layouts deal entry b * k + j, counted over all bursts, to stream (b * k + j) mod stream. */
  lemma LaneIsRoundRobin(stream: nat, k: nat, b: nat, j: nat)
    requires Compatible(stream, k) && j < k
    ensures Lane(stream, k, b, j) == (b * k + j) % stream < stream
  {
    if stream <= k {
      var c := k / stream;
      Whole(k, stream);
      FewStreams(stream, c, b, j);
    } else {
      var c := stream / k;
      Whole(stream, k);
      ManyStreams(k, c, b, j);
    }
  }

  lemma LaneOfEntry(stream: nat, k: nat, e: nat)
    requires Compatible(stream, k)
    ensures 0 <= e % stream < stream && 0 <= e % k < k
    ensures Lane(stream, k, e / k, e % k) == e % stream
  {
    QuotientStep(k, e);
    QuotientStep(stream, e);
    LaneIsRoundRobin(stream, k, e / k, e % k);
  }

  /** How many of the first e entries belong to stream w. */
  function Share(stream: nat, w: nat, e: nat): nat
    requires stream > 0
  {
    e / stream + (if w < e % stream then 1 else 0)
  }

  lemma ShareStep(stream: nat, w: nat, e: nat)
    requires 0 <= w < stream
    ensures Share(stream, w, e + 1) == Share(stream, w, e) + (if e % stream == w then 1 else 0)
    ensures e % stream == w ==> Share(stream, w, e) == e / stream
  {
    QuotientStep(stream, e);
  }

  /** Counting on by one either stays in the same group of k or opens the next one. */
  lemma QuotientStep(k: nat, e: nat)
    requires k > 0
    ensures 0 <= e % k < k && e == (e / k) * k + e % k
    ensures e % k + 1 < k ==> (e + 1) / k == e / k && (e + 1) % k == e % k + 1
    ensures e % k + 1 == k ==> (e + 1) / k == e / k + 1 && (e + 1) % k == 0
  {
    if e % k + 1 < k {
      DivideUnique(e + 1, k, e / k, e % k + 1);
    } else {
      Distribute(e / k, 1, k);
      DivideUnique(e + 1, k, e / k + 1, 0);
    }
  }

  lemma QuotientBelow(k: nat, e: nat, n: nat)
    requires k > 0 && e < n * k
    ensures e / k < n
  {
    QuotientStep(k, e);
    if e / k > n {
      ProductGap(n, e / k, k);
    }
  }

  lemma PositionSplit(k: nat, b: nat, j: nat)
    requires k > 0 && j < k
    ensures (b * k + j) / k == b && (b * k + j) % k == j
  {
    DivideUnique(b * k + j, k, b, j);
  }
}
