/** Failure-carrying values used across the model: a missing value and a
    success-or-error outcome (the source's `None` and raised exceptions). */
module Wrappers {

  /** A value that may be absent (Python's `None`). */
  datatype Option<T> = None | Some(value: T)

  /** The outcome of an operation that can raise: a value or an error message. */
  datatype Result<T, E> = Success(value: T) | Failure(error: E)
}
