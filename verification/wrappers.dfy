/** Failure-compatible wrappers used for the exceptions that the matcher raises
    and for the values that the regex engine may or may not return. */
module Wrappers {

  datatype Option<+T> = None | Some(value: T)

  /** A value, or the error that the source raises instead of returning one. */
  datatype Result<+R, +E> = Success(value: R) | Failure(error: E) {
    predicate IsFailure() { Failure? }
    function PropagateFailure<U>(): Result<U, E>
      requires Failure?
    {
      Failure(error)
    }
    function Extract(): R
      requires Success?
    {
      value
    }
  }

  /** A check that either passes or raises an error. */
  datatype Outcome<+E> = Pass | Fail(error: E)

  /** Applies `f` to each element in order, as a Python list comprehension
      does, and stops at the first element for which it raises. */
  function MapAll<T, U, E>(xs: seq<T>, f: T -> Result<U, E>): (r: Result<seq<U>, E>)
    ensures r.Success? <==> forall i :: 0 <= i < |xs| ==> f(xs[i]).Success?
    ensures r.Success? ==> |r.value| == |xs| && forall i :: 0 <= i < |xs| ==> r.value[i] == f(xs[i]).value
    ensures r.Failure? ==>
      exists i :: 0 <= i < |xs| && f(xs[i]) == Failure(r.error) &&
        forall j :: 0 <= j < i ==> f(xs[j]).Success?
  {
    if xs == [] then Success([])
    else
      match f(xs[0])
      case Failure(e) => Failure(e)
      case Success(y) =>
        match MapAll(xs[1..], f)
        case Failure(e) =>
          assert forall j :: 1 <= j < |xs| ==> xs[1..][j - 1] == xs[j];
          Failure(e)
        case Success(ys) =>
          assert forall j :: 1 <= j < |xs| ==> xs[1..][j - 1] == xs[j];
          Success([y] + ys)
  }
}
