/** Option and Result, used for the null returns and the caught exceptions of the client. */
module Wrappers {

  /** `None` stands for a C# `null` or for a call that threw. */
  datatype Option<+T> = None | Some(value: T)

  /** A computation that either yields a value or stops with the exception it raised. */
  datatype Result<+T, +E> = Success(value: T) | Failure(error: E) {
    predicate IsFailure() {
      Failure?
    }

    function PropagateFailure<U>(): Result<U, E>
      requires Failure?
    {
      Failure(error)
    }

    function Extract(): T
      requires Success?
    {
      value
    }
  }
}
