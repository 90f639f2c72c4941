/** Runs of a state machine given by a partial step function.

A protocol is a function `step` that says, for a state and an event, whether the
event can happen there and which state follows. A run is a finite sequence of
events that can happen one after the other from the initial state, so a claim
about every run is a claim about every interleaving and every reachable state.
 */
module Runs {

  datatype Option<+T> = None | Some(value: T)

  /** The state after `run`, or None when some event of it could not happen. */
  function Exec<S, E>(step: (S, E) -> Option<S>, init: S, run: seq<E>): Option<S>
  {
    if run == [] then Some(init)
    else
      match Exec(step, init, run[..|run| - 1])
      case None => None
      case Some(s) => step(s, run[|run| - 1])
  }

  predicate IsRun<S, E>(step: (S, E) -> Option<S>, init: S, run: seq<E>)
  {
    Exec(step, init, run).Some?
  }

  /** A run is closed under taking prefixes. */
  lemma {:induction false} PrefixIsRun<S, E>(step: (S, E) -> Option<S>, init: S, run: seq<E>, k: nat)
    requires IsRun(step, init, run)
    requires k <= |run|
    ensures IsRun(step, init, run[..k])
  {
    if k == |run| {
      assert run[..k] == run;
    } else {
      PrefixIsRun(step, init, run[..|run| - 1], k);
      assert run[..|run| - 1][..k] == run[..k];
    }
  }

  /** The event at index `k` leads from the state before it to the state after it. */
  lemma StepAt<S, E>(step: (S, E) -> Option<S>, init: S, run: seq<E>, k: nat)
    requires IsRun(step, init, run)
    requires k < |run|
    ensures IsRun(step, init, run[..k])
    ensures IsRun(step, init, run[..k + 1])
    ensures step(Exec(step, init, run[..k]).value, run[k]) == Exec(step, init, run[..k + 1])
  {
    PrefixIsRun(step, init, run, k);
    PrefixIsRun(step, init, run, k + 1);
    assert run[..k + 1][..k] == run[..k];
  }

  lemma ExecAppend<S, E>(step: (S, E) -> Option<S>, init: S, run: seq<E>, e: E)
    requires IsRun(step, init, run)
    ensures Exec(step, init, run + [e]) == step(Exec(step, init, run).value, e)
  {
    assert (run + [e])[..|run|] == run;
  }
}
