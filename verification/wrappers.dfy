/** Option and Result, the two wrappers the model uses for SQL NULLs, Python's None and raised exceptions. */
module Wrappers {

  /** A value that may be absent: a NULL column or a Python None. */
  datatype Option<+T> = None | Some(value: T)

  /** The outcome of an operation that may raise: its value, or the fault it raised. */
  datatype Result<+T, +E> = Success(value: T) | Failure(error: E) {
    predicate IsFailure() {
      Failure?
    }

    function PropagateFailure<U>(): Result<U, E>
      requires Failure?
    {
      Failure(error)
    }

    function Extract(): T
      requires Success?
    {
      value
    }
  }
}
