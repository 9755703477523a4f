/**
  Networks of sequential processes joined by bounded FIFOs, the execution model of an HLS DATAFLOW
  region: each process repeatedly reads or writes one channel, blocking on an empty or a full FIFO,
  and every channel has one reading and one writing process.
*/
module Kahn {
  import opened Runs

  datatype Act<+V> = Get(ch: nat) | Put(ch: nat, v: V) | Stop

  /** A process p in local state l performs next(p, l) and continues in got(p, l, value) or sent(p, l). */
  datatype Net<!L, !V> = Net(
    next: (nat, L) -> Act<V>,
    got: (nat, L, V) -> L,
    sent: (nat, L) -> L,
    capacity: nat -> nat,
    reader: nat -> nat,
    writer: nat -> nat)

  datatype State<+L, +V> = State(local: seq<L>, fifo: seq<seq<V>>)

  ghost predicate Disciplined<L(!new), V(!new)>(net: Net<L, V>) {
    forall p: nat, l: L ::
      && (net.next(p, l).Get? ==> net.reader(net.next(p, l).ch) == p)
      && (net.next(p, l).Put? ==> net.writer(net.next(p, l).ch) == p)
  }

  predicate Enabled<L, V>(net: Net<L, V>, s: State<L, V>, p: nat) {
    p < |s.local| &&
    match net.next(p, s.local[p])
    case Get(c) => c < |s.fifo| && |s.fifo[c]| > 0
    case Put(c, _) => c < |s.fifo| && |s.fifo[c]| < net.capacity(c)
    case Stop => false
  }

  function Step<L, V>(net: Net<L, V>, s: State<L, V>, p: nat): State<L, V>
    requires Enabled(net, s, p)
  {
    var l := s.local[p];
    match net.next(p, l)
    case Get(c) => State(s.local[p := net.got(p, l, s.fifo[c][0])], s.fifo[c := s.fifo[c][1..]])
    case Put(c, v) => State(s.local[p := net.sent(p, l)], s.fifo[c := s.fifo[c] + [v]])
  }

  function AsSystem<L, V>(net: Net<L, V>): System<State<L, V>> {
    System((s, p) => Enabled(net, s, p), (s, p) => if Enabled(net, s, p) then Step(net, s, p) else s)
  }

  /** A process that can move stays able to move, with the same effect, when another one moves. */
  lemma Diamond<L(!new), V(!new)>(net: Net<L, V>, s: State<L, V>, p: nat, q: nat)
    requires Disciplined(net) && p != q && Enabled(net, s, p) && Enabled(net, s, q)
    ensures Enabled(net, Step(net, s, p), q) && Enabled(net, Step(net, s, q), p)
    ensures Step(net, Step(net, s, p), q) == Step(net, Step(net, s, q), p)
  {
    var a, b := Step(net, s, p), Step(net, s, q);
    assert a.local[q] == s.local[q] && b.local[p] == s.local[p];
    var i, j := net.next(p, s.local[p]), net.next(q, s.local[q]);
    if i.Get? && j.Put? && i.ch == j.ch {
      assert (s.fifo[i.ch] + [j.v])[1..] == s.fifo[i.ch][1..] + [j.v];
    }
    if i.Put? && j.Get? && i.ch == j.ch {
      assert (s.fifo[i.ch] + [i.v])[1..] == s.fifo[i.ch][1..] + [i.v];
    }
    var ab, ba := Step(net, a, q), Step(net, b, p);
    assert ab.local == ba.local;
    forall c | 0 <= c < |s.fifo|
      ensures ab.fifo[c] == ba.fifo[c]
    {
    }
    assert ab.fifo == ba.fifo;
  }

  lemma NetworksAreUndisturbed<L(!new), V(!new)>(net: Net<L, V>)
    requires Disciplined(net)
    ensures Undisturbed(AsSystem(net))
  {
    var sys := AsSystem(net);
    forall s: State<L, V>, p: nat, q: nat | p != q && sys.enabled(s, p) && sys.enabled(s, q)
      ensures sys.enabled(sys.step(s, p), q) && sys.enabled(sys.step(s, q), p)
      ensures sys.step(sys.step(s, p), q) == sys.step(sys.step(s, q), p)
    {
      Diamond(net, s, p, q);
    }
  }

  /** Some schedule leads from s to t. */
  ghost predicate Reach<L, V>(net: Net<L, V>, s: State<L, V>, t: State<L, V>) {
    exists n: nat :: Reaches(AsSystem(net), s, n, t)
  }

  /** Every schedule from s ends in t, after one and the same number of steps. */
  ghost predicate Always<L(!new), V(!new)>(net: Net<L, V>, s: State<L, V>, t: State<L, V>) {
    exists n: nat :: Inevitable(AsSystem(net), s, n, t)
  }

  ghost predicate Blocked<L, V>(net: Net<L, V>, s: State<L, V>) {
    forall p: nat :: !Enabled(net, s, p)
  }

  lemma OneScheduleSuffices<L(!new), V(!new)>(net: Net<L, V>, s: State<L, V>, t: State<L, V>)
    requires Disciplined(net) && Reach(net, s, t) && Blocked(net, t)
    ensures Always(net, s, t)
  {
    NetworksAreUndisturbed(net);
    var n: nat :| Reaches(AsSystem(net), s, n, t);
    forall p: nat
      ensures !AsSystem(net).enabled(t, p)
    {
      assert !Enabled(net, t, p);
    }
    OneRunDecides(AsSystem(net), s, n, t);
  }

  /** In terms of schedules: from every reachable state the end is still reachable, and only the end is blocked. */
  lemma AlwaysMeans<L(!new), V(!new)>(net: Net<L, V>, s: State<L, V>, t: State<L, V>, u: State<L, V>)
    requires Always(net, s, t) && Reach(net, s, u)
    ensures Reach(net, u, t)
    ensures Blocked(net, u) <==> u == t
  {
    var sys := AsSystem(net);
    var n: nat :| Inevitable(sys, s, n, t);
    var m: nat :| Reaches(sys, s, m, u);
    assert Reaches(sys, u, n - m, t);
    StuckOnlyAtTheEnd(sys, s, n, t, m, u);
    assert Quiet(sys, u) <==> Blocked(net, u) by {
      assert forall p: nat :: sys.enabled(u, p) == Enabled(net, u, p);
    }
  }

  // ----- building one schedule -----

  lemma Start<L, V>(net: Net<L, V>, s: State<L, V>)
    ensures Reach(net, s, s)
  {
    assert Reaches(AsSystem(net), s, 0, s);
  }

  lemma Join<L, V>(net: Net<L, V>, s: State<L, V>, t: State<L, V>, u: State<L, V>)
    requires Reach(net, s, t) && Reach(net, t, u)
    ensures Reach(net, s, u)
  {
    var m: nat :| Reaches(AsSystem(net), s, m, t);
    var n: nat :| Reaches(AsSystem(net), t, n, u);
    Append(AsSystem(net), s, m, t, n, u);
  }

  lemma Then<L, V>(net: Net<L, V>, s: State<L, V>, t: State<L, V>, p: nat)
    requires Reach(net, s, t) && Enabled(net, t, p)
    ensures Reach(net, s, Step(net, t, p))
  {
    var u := Step(net, t, p);
    One(AsSystem(net), t, p);
    assert Reaches(AsSystem(net), t, 1, u);
    Join(net, s, t, u);
  }

  /** Process p, in local state l, takes v from channel c. */
  lemma Takes<L, V>(net: Net<L, V>, s: State<L, V>, t: State<L, V>, p: nat, c: nat, v: V, rest: seq<V>)
    returns (u: State<L, V>)
    requires Reach(net, s, t) && p < |t.local| && c < |t.fifo|
    requires net.next(p, t.local[p]) == Get(c)
    requires t.fifo[c] == [v] + rest
    ensures u == State(t.local[p := net.got(p, t.local[p], v)], t.fifo[c := rest])
    ensures Reach(net, s, u)
  {
    assert ([v] + rest)[1..] == rest;
    Then(net, s, t, p);
    u := Step(net, t, p);
  }

  /** Process p, in local state l, appends v to channel c. */
  lemma Gives<L, V>(net: Net<L, V>, s: State<L, V>, t: State<L, V>, p: nat, c: nat, v: V)
    returns (u: State<L, V>)
    requires Reach(net, s, t) && p < |t.local| && c < |t.fifo|
    requires net.next(p, t.local[p]) == Put(c, v)
    requires |t.fifo[c]| < net.capacity(c)
    ensures u == State(t.local[p := net.sent(p, t.local[p])], t.fifo[c := t.fifo[c] + [v]])
    ensures Reach(net, s, u)
  {
    Then(net, s, t, p);
    u := Step(net, t, p);
  }

  /** A value handed straight from process p to process q through an empty channel. */
  lemma Hands<L, V>(net: Net<L, V>, s: State<L, V>, t: State<L, V>, p: nat, q: nat, c: nat, v: V)
    returns (u: State<L, V>)
    requires Reach(net, s, t) && p < |t.local| && q < |t.local| && p != q && c < |t.fifo|
    requires net.next(p, t.local[p]) == Put(c, v) && net.next(q, t.local[q]) == Get(c)
    requires t.fifo[c] == [] && net.capacity(c) > 0
    ensures u == State(t.local[p := net.sent(p, t.local[p])][q := net.got(q, t.local[q], v)], t.fifo)
    ensures Reach(net, s, u)
  {
    var m := Gives(net, s, t, p, c, v);
    u := Takes(net, s, m, q, c, v, []);
    assert u.fifo == t.fifo;
  }
}
