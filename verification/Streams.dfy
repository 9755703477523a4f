/** The `hls::stream` FIFOs as sequential C simulation sees them: unbounded queues, read only when non-empty. */
module Streams {

  class Stream<T> {
    var q: seq<T>

    constructor ()
      ensures q == []
    {
      q := [];
    }

    method Write(x: T)
      modifies this
      ensures q == old(q) + [x]
    {
      q := q + [x];
    }

    method Read() returns (x: T)
      requires |q| > 0
      modifies this
      ensures x == old(q)[0] && q == old(q)[1..]
    {
      x := q[0];
      q := q[1..];
    }
  }

  /** A C array of streams. */
  class StreamArray<T> {
    var q: seq<seq<T>>

    constructor (n: nat)
      ensures |q| == n && forall i :: 0 <= i < n ==> q[i] == []
    {
      q := seq(n, i => []);
    }

    method Write(i: nat, x: T)
      requires i < |q|
      modifies this
      ensures q == old(q)[i := old(q)[i] + [x]]
    {
      q := q[i := q[i] + [x]];
    }

    method Read(i: nat) returns (x: T)
      requires i < |q| && |q[i]| > 0
      modifies this
      ensures x == old(q)[i][0] && q == old(q)[i := old(q)[i][1..]]
    {
      x := q[i][0];
      q := q[i := q[i][1..]];
    }
  }
}
