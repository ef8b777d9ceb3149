/** Optional values (the source's nullable references) and results that carry
    either a value or an error (the source's exceptions). */
module Wrappers {

  /** A value that may be absent, as a .NET reference may be null. */
  datatype Option<+T> = None | Some(value: T)

  /** The outcome of an operation that either produces a value or fails. */
  datatype Result<+R, +E> = Success(value: R) | Failure(error: E)

  /** The outcome of a check that produces no value. With `:-` a failed
      check ends the enclosing method with a `Result` failure. */
  datatype Outcome<+E> = Pass | Fail(error: E) {

    predicate IsFailure() {
      Fail?
    }

    function PropagateFailure<U>(): Result<U, E>
      requires Fail?
    {
      Failure(error)
    }
  }
}
