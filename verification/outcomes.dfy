/** Failure-compatible wrappers shared by every module of the model. */
module Outcomes {

  /** An optional value: the model's stand-in for a Go nil pointer or an absent reply. */
  datatype Option<+T> = None | Some(value: T)

  /** A value or an error, the model's stand-in for Go's `(value, err)` return pairs. */
  datatype Result<+T, +E> = Success(value: T) | Failure(error: E) {

    predicate IsFailure() {
      Failure?
    }

    function PropagateFailure<U>(): Result<U, E>
      requires Failure?
    {
      Failure(error)
    }

    function Extract(): T
      requires Success?
    {
      value
    }
  }

  /** Where a step over a sequence stopped: the failing position and its error. */
  datatype StepFailure<+E> = StepFailure(at: nat, cause: E)

  /**
   `step` applied to every element with its position, in order, as a Go loop
   that returns on the first error: on success one value per element, on
   failure the first position whose step failed.
   */
  function MapUntilFailure<A, B, E>(xs: seq<A>, step: (nat, A) -> Result<B, E>): (r: Result<seq<B>, StepFailure<E>>)
    ensures r.Success? ==> |r.value| == |xs| && forall i :: 0 <= i < |xs| ==> step(i, xs[i]) == Success(r.value[i])
    ensures r.Failure? ==>
      && r.error.at < |xs|
      && (forall i :: 0 <= i < r.error.at ==> step(i, xs[i]).Success?)
      && step(r.error.at, xs[r.error.at]) == Failure(r.error.cause)
    decreases |xs|
  {
    if |xs| == 0 then Success([])
    else
      var n := |xs| - 1;
      var init := MapUntilFailure(xs[..n], step);
      assert forall i :: 0 <= i < n ==> xs[..n][i] == xs[i];
      if init.Failure? then init
      else
        match step(n, xs[n])
        case Failure(e) => Failure(StepFailure(n, e))
        case Success(y) => Success(init.value + [y])
  }
}
