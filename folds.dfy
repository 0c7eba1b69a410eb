/**
  The shape shared by the loops of scripts/analyze_deps.py that sit inside a
  single `try`: each element updates the state in turn, and the first element
  whose step raises ends the loop, keeping the state reached so far.
 */
module Folds {
  import opened Wrappers

  /** The state after stepping through `xs`, stopping at the first step that fails. */
  function FoldUntilFailure<S, X>(step: (S, X) -> Option<S>, s: S, xs: seq<X>): S
    decreases |xs|
  {
    if |xs| == 0 then s
    else match step(s, xs[0])
      case None => s
      case Some(s') => FoldUntilFailure(step, s', xs[1..])
  }

  /** The loop invariant's step: one element consumed. */
  lemma FoldStep<S, X>(step: (S, X) -> Option<S>, s: S, xs: seq<X>)
    requires |xs| > 0
    ensures FoldUntilFailure(step, s, xs)
      == if step(s, xs[0]).None? then s else FoldUntilFailure(step, step(s, xs[0]).value, xs[1..])
  {
  }

  /**
    An element whose step fails abandons the rest: the fold over the whole
    sequence equals the fold over the elements before it.
   */
  lemma {:induction false} FailureStops<S, X>(step: (S, X) -> Option<S>, s: S, xs: seq<X>, k: nat)
    requires k < |xs| && step(FoldUntilFailure(step, s, xs[..k]), xs[k]).None?
    ensures FoldUntilFailure(step, s, xs) == FoldUntilFailure(step, s, xs[..k])
    decreases k
  {
    if k > 0 {
      assert xs[..k][0] == xs[0];
      match step(s, xs[0])
      case None =>
      case Some(s') =>
        assert xs[..k][1..] == xs[1..][..k - 1];
        assert xs[1..][k - 1] == xs[k];
        FailureStops(step, s', xs[1..], k - 1);
    }
  }

  /** A fold whose every step is known: it ends in the last of the given states. */
  lemma {:induction false} FoldAlong<S, X>(step: (S, X) -> Option<S>, xs: seq<X>, state: nat --> S)
    requires forall i :: 0 <= i <= |xs| ==> state.requires(i)
    requires forall i :: 0 <= i < |xs| ==> step(state(i), xs[i]) == Some(state(i + 1))
    ensures FoldUntilFailure(step, state(0), xs) == state(|xs|)
    decreases |xs|
  {
    if |xs| > 0 {
      var next := (i: nat) requires i + 1 <= |xs| && state.requires(i + 1) => state(i + 1);
      forall i | 0 <= i < |xs| - 1
        ensures step(next(i), xs[1..][i]) == Some(next(i + 1))
      {
        assert step(state(i + 1), xs[i + 1]) == Some(state(i + 2));
      }
      FoldAlong(step, xs[1..], next);
    }
  }
}
