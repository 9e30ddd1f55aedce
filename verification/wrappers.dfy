/** Python's `None` and raised exceptions, as values. */
module Wrappers {

  /** A value that may be absent (Python's `Optional[...]`). */
  datatype Option<+T> = None | Some(value: T)

  /** The outcome of an operation that returns a value or raises an error. */
  datatype Result<+R, +E> = Success(value: R) | Failure(error: E)

  /** The outcome of a check that either passes or raises an error. */
  datatype Outcome<+E> = Pass | Fail(error: E)
}
