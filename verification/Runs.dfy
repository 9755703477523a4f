/**
  Runs of an abstract concurrent system whose processes, one step at a time, are picked by an
  arbitrary scheduler. If processes that can both move never disturb each other, then one run that
  reaches a state where nothing can move decides all runs: every other schedule can be continued to
  that same state in the same number of steps. One well-chosen schedule then proves deadlock
  freedom, termination and schedule independence at once.
*/
module Runs {

  datatype System<!S> = System(enabled: (S, nat) -> bool, step: (S, nat) -> S)

  ghost predicate Undisturbed<S(!new)>(sys: System<S>) {
    forall s: S, p: nat, q: nat :: p != q && sys.enabled(s, p) && sys.enabled(s, q) ==>
      && sys.enabled(sys.step(s, p), q) && sys.enabled(sys.step(s, q), p)
      && sys.step(sys.step(s, p), q) == sys.step(sys.step(s, q), p)
  }

  /** Some schedule of exactly n steps leads from s to t. */
  ghost predicate Reaches<S>(sys: System<S>, s: S, n: nat, t: S)
    decreases n
  {
    if n == 0 then s == t
    else exists p: nat :: sys.enabled(s, p) && Reaches(sys, sys.step(s, p), n - 1, t)
  }

  /** No process can move. */
  ghost predicate Quiet<S>(sys: System<S>, s: S) {
    forall p: nat :: !sys.enabled(s, p)
  }

  /** Every run from s is at most n steps long, and can be continued to end in t after n steps. */
  ghost predicate Inevitable<S(!new)>(sys: System<S>, s: S, n: nat, t: S) {
    && Quiet(sys, t)
    && forall m: nat, u: S :: Reaches(sys, s, m, u) ==> m <= n && Reaches(sys, u, n - m, t)
  }

  /** Any first step can be put in front of a run that ends in a quiet state. */
  lemma {:induction false} FirstStep<S(!new)>(sys: System<S>, s: S, n: nat, t: S, q: nat)
    requires Undisturbed(sys) && Reaches(sys, s, n, t) && Quiet(sys, t) && sys.enabled(s, q)
    ensures n > 0 && Reaches(sys, sys.step(s, q), n - 1, t)
    decreases n
  {
    if n > 0 {
      var p: nat :| sys.enabled(s, p) && Reaches(sys, sys.step(s, p), n - 1, t);
      if p != q {
        FirstStep(sys, sys.step(s, p), n - 1, t, q);
      }
    }
  }

  lemma {:induction false} Continue<S(!new)>(sys: System<S>, s: S, n: nat, t: S, m: nat, u: S)
    requires Undisturbed(sys) && Reaches(sys, s, n, t) && Quiet(sys, t) && Reaches(sys, s, m, u)
    ensures m <= n && Reaches(sys, u, n - m, t)
    decreases m
  {
    if m > 0 {
      var q: nat :| sys.enabled(s, q) && Reaches(sys, sys.step(s, q), m - 1, u);
      FirstStep(sys, s, n, t, q);
      Continue(sys, sys.step(s, q), n - 1, t, m - 1, u);
    }
  }

  /** One completed run decides all runs. */
  lemma OneRunDecides<S(!new)>(sys: System<S>, s: S, n: nat, t: S)
    requires Undisturbed(sys) && Reaches(sys, s, n, t) && Quiet(sys, t)
    ensures Inevitable(sys, s, n, t)
  {
    forall m: nat, u: S | Reaches(sys, s, m, u)
      ensures m <= n && Reaches(sys, u, n - m, t)
    {
      Continue(sys, s, n, t, m, u);
    }
  }

  /** A scheduler gets stuck in the final state and nowhere else. */
  lemma StuckOnlyAtTheEnd<S(!new)>(sys: System<S>, s: S, n: nat, t: S, m: nat, u: S)
    requires Inevitable(sys, s, n, t) && Reaches(sys, s, m, u)
    ensures Quiet(sys, u) <==> u == t
    ensures Quiet(sys, u) <==> m == n
  {
    assert m <= n && Reaches(sys, u, n - m, t);
  }

  // ----- building a run -----

  lemma {:induction false} Append<S>(sys: System<S>, s: S, m: nat, t: S, n: nat, u: S)
    requires Reaches(sys, s, m, t) && Reaches(sys, t, n, u)
    ensures Reaches(sys, s, m + n, u)
    decreases m
  {
    if m > 0 {
      var p: nat :| sys.enabled(s, p) && Reaches(sys, sys.step(s, p), m - 1, t);
      Append(sys, sys.step(s, p), m - 1, t, n, u);
    }
  }

  lemma One<S>(sys: System<S>, s: S, p: nat)
    requires sys.enabled(s, p)
    ensures Reaches(sys, s, 1, sys.step(s, p))
  {
    assert Reaches(sys, sys.step(s, p), 0, sys.step(s, p));
  }
}
