/** Failure-compatible result and option types shared by the model. */
module Wrappers {

  datatype Option<+T> = None | Some(value: T)

  /** A value or an error, usable with `:-` like Rust's `?`. */
  datatype Result<+T, +E> = Success(value: T) | Failure(error: E) {

    predicate IsFailure() {
      Failure?
    }

    function PropagateFailure<U>(): Result<U, E>
      requires Failure?
    {
      Failure(error)
    }

    function Extract(): T
      requires Success?
    {
      value
    }
  }
}
