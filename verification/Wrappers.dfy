/** Optional values and results with an error, standing in for Java's
    `Optional` and for the checked exceptions the edit pipeline throws. */
module Wrappers {

  /** Java's `Optional<T>`: empty, or holding a value. */
  datatype Option<+T> = None | Some(value: T) {

    /** `Optional.orElse`: the held value, or `default` when empty. */
    function GetOr(default: T): T {
      match this
      case Some(v) => v
      case None => default
    }
  }

  /** The value an operation returns, or the error it throws. Usable with
      `:-`, so that the first error aborts the rest of the computation, as
      a thrown exception does. */
  datatype Result<+R, +E> = Success(value: R) | Failure(error: E) {

    predicate IsFailure() {
      Failure?
    }

    function PropagateFailure<U>(): Result<U, E>
      requires Failure?
    {
      Failure(error)
    }

    function Extract(): R
      requires Success?
    {
      value
    }
  }
}
