// Runs of a state machine.
module Runs {
  import opened Prelude

  // The state after a run, or None if some step of it was not possible.
  function Exec<S, A>(step: (S, A) -> Option<S>, s: S, steps: seq<A>): Option<S> {
    if steps == [] then Some(s)
    else
      var p := Exec(step, s, steps[..|steps| - 1]);
      if p.Some? then step(p.value, steps[|steps| - 1]) else None
  }

  lemma ExecOne<S, A>(step: (S, A) -> Option<S>, s: S, steps: seq<A>, a: A)
    ensures Exec(step, s, steps + [a]) ==
            if Exec(step, s, steps).Some? then step(Exec(step, s, steps).value, a) else None
  {
    assert (steps + [a])[..|steps + [a]| - 1] == steps;
  }

  lemma {:induction false} ExecPrefix<S, A>(step: (S, A) -> Option<S>, s: S, a: seq<A>, b: seq<A>)
    requires Exec(step, s, a + b).Some?
    ensures Exec(step, s, a).Some?
  {
    if b == [] {
      assert a + b == a;
    } else {
      assert (a + b)[..|a + b| - 1] == a + b[..|b| - 1];
      ExecPrefix(step, s, a, b[..|b| - 1]);
    }
  }
}
