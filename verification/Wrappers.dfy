/** Option and Result, the shapes used for the source's out-parameters and error returns. */
module Wrappers {

  datatype Option<+T> = None | Some(value: T) {
    function GetOr(other: T): T {
      if None? then other else value
    }
  }

  datatype Result<+T, +E> = Success(value: T) | Failure(error: E) {
    predicate IsFailure() {
      Failure?
    }

    function PropagateFailure<U>(): Result<U, E>
      requires Failure?
    {
      Failure(error)
    }

    function Extract(): T
      requires Success?
    {
      value
    }
  }

  /** What a loop that has `done` behind it makes of the rest. */
  function Prepend<T, E>(done: seq<T>, r: Result<seq<T>, E>): Result<seq<T>, E> {
    match r
    case Failure(e) => Failure(e)
    case Success(rest) => Success(done + rest)
  }

  lemma PrependNothing<T, E>(r: Result<seq<T>, E>)
    ensures Prepend([], r) == r
  {
    match r
    case Failure(_) =>
    case Success(rest) => assert [] + rest == rest;
  }
}
