// Runs of a protocol whose steps are given by a function.
module Runs {
  import opened Options

  // The state after a run, unless some step of it is not possible.
  function Exec<S, T>(next: (S, T) -> Option<S>, s: S, steps: seq<T>): Option<S>
    decreases |steps|
  {
    if steps == [] then Some(s)
    else
      var last := |steps| - 1;
      match Exec(next, s, steps[..last])
      case None => None
      case Some(t) => next(t, steps[last])
  }

  lemma NoSteps<S, T>(next: (S, T) -> Option<S>, s: S)
    ensures Exec(next, s, []) == Some(s)
  {
  }

  lemma Add<S, T>(next: (S, T) -> Option<S>, s: S, steps: seq<T>, step: T) returns (more: seq<T>)
    requires Exec(next, s, steps).Some?
    ensures Exec(next, s, more) == next(Exec(next, s, steps).value, step)
  {
    more := steps + [step];
    assert more[..|more| - 1] == steps;
  }

  // There are no two threads.
  predicate AtMostOne<T>(threads: map<int, T>) {
    forall a, b :: a in threads && b in threads ==> a == b
  }
}
