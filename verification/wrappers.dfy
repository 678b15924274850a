/** Option and Result: the two failure-carrying shapes the model uses.
    Both support Dafny's `:-` so that a Python exception propagates
    the way it does in the source: the first failure ends the computation. */
module Wrappers {

  datatype Option<+T> = None | Some(value: T) {

    /** `value` when present, `default` otherwise (Python's `d.get(k, default)`). */
    function GetOr(default: T): T {
      match this
      case Some(v) => v
      case None => default
    }

    predicate IsFailure() {
      None?
    }

    function PropagateFailure<U>(): Option<U>
      requires None?
    {
      None
    }

    function Extract(): T
      requires Some?
    {
      value
    }
  }

  datatype Result<+T, +E> = Success(value: T) | Failure(error: E) {

    predicate IsFailure() {
      Failure?
    }

    function PropagateFailure<U>(): Result<U, E>
      requires Failure?
    {
      Failure(error)
    }

    function Extract(): T
      requires Success?
    {
      value
    }
  }
}
