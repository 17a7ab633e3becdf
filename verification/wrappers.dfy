/** Failure-carrying datatypes used throughout the codec model: `Option` for a
    lookup or parse that may find nothing, `Result` for an operation that either
    produces a value or fails with an error (the source throws an `Error`). */
module Wrappers {

  datatype Option<+T> = None | Some(value: T)

  datatype Result<+R, +E> = Success(value: R) | Failure(error: E) {

    predicate IsFailure() {
      Failure?
    }

    function PropagateFailure<U>(): Result<U, E>
      requires Failure?
    {
      Failure(error)
    }

    function Extract(): R
      requires Success?
    {
      value
    }
  }
}
