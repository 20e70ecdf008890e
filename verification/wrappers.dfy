/** Failure-compatible Option and Result types used by every module of the model. */
module Wrappers {

  datatype Option<+T> = None | Some(value: T) {
    predicate IsFailure() { None? }

    function PropagateFailure<U>(): Option<U>
      requires None?
    {
      None
    }

    function Extract(): T
      requires Some?
    {
      value
    }
  }

  datatype Result<+R, +E> = Success(value: R) | Failure(error: E) {
    predicate IsFailure() { Failure? }

    function PropagateFailure<U>(): Result<U, E>
      requires Failure?
    {
      Failure(error)
    }

    function Extract(): R
      requires Success?
    {
      value
    }
  }

  /** Applies f to every element, stopping at the first failure. */
  function MapUntilError<A, B, E>(xs: seq<A>, f: A -> Result<B, E>): (r: Result<seq<B>, E>)
    decreases |xs|
    ensures r.Success? ==> |r.value| == |xs|
  {
    if xs == [] then Success([])
    else
      var y :- f(xs[0]);
      var rest :- MapUntilError(xs[1..], f);
      Success([y] + rest)
  }

  /** A success holds every element's image in order; a failure is the error of
      the first element f rejects. */
  lemma {:induction false} MapUntilErrorMeaning<A, B, E>(xs: seq<A>, f: A -> Result<B, E>)
    decreases |xs|
    ensures MapUntilError(xs, f).Success? ==>
              forall i :: 0 <= i < |xs| ==> f(xs[i]) == Success(MapUntilError(xs, f).value[i])
    ensures MapUntilError(xs, f).Failure? ==>
              exists i ::
                && 0 <= i < |xs| && f(xs[i]) == Failure(MapUntilError(xs, f).error)
                && forall i2 :: 0 <= i2 < i ==> f(xs[i2]).Success?
  {
    if xs != [] {
      var r := MapUntilError(xs, f);
      var tail := xs[1..];
      assert forall i :: 0 < i < |xs| ==> xs[i] == tail[i - 1];
      if f(xs[0]).Success? {
        MapUntilErrorMeaning(tail, f);
        var rest := MapUntilError(tail, f);
        if rest.Success? {
          assert r.value == [f(xs[0]).value] + rest.value;
        } else {
          var j :| && 0 <= j < |tail| && f(tail[j]) == Failure(rest.error)
                   && forall i2 :: 0 <= i2 < j ==> f(tail[i2]).Success?;
          assert f(xs[j + 1]) == Failure(r.error);
        }
      } else {
        assert f(xs[0]) == Failure(r.error);
      }
    }
  }

  /** The outputs produced before the first failure, and that failure if any. */
  datatype Progress<+B, +E> = Progress(done: seq<B>, failure: Option<E>)

  /** Applies f to every element in turn, keeping what was produced before the
      first failure. */
  function RunEach<A, B, E>(xs: seq<A>, f: A -> Result<B, E>): (r: Progress<B, E>)
    decreases |xs|
    ensures |r.done| <= |xs|
    ensures r.failure.None? ==> |r.done| == |xs|
    ensures forall k :: 0 <= k < |r.done| ==> f(xs[k]) == Success(r.done[k])
    ensures r.failure.Some? ==> |r.done| < |xs| && f(xs[|r.done|]) == Failure(r.failure.value)
  {
    if xs == [] then Progress([], None)
    else
      match f(xs[0])
      case Failure(e) => Progress([], Some(e))
      case Success(y) =>
        var rest := RunEach(xs[1..], f);
        assert forall k :: 0 < k < |xs| ==> xs[k] == xs[1..][k - 1];
        Progress([y] + rest.done, rest.failure)
  }
}
