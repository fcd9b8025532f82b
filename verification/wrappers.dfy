/** Failure-carrying datatypes shared by every module of the model. */
module Wrappers {

  datatype Option<+T> = None | Some(value: T)

  /** A computation that yields a value or an error, as a Go `(T, error)` pair does. */
  datatype Result<+T, +E> = Success(value: T) | Failure(error: E) {
    predicate IsFailure() {
      Failure?
    }

    function PropagateFailure<U>(): Result<U, E>
      requires Failure?
    {
      Failure(error)
    }

    function Extract(): T
      requires Success?
    {
      value
    }
  }
}
