/** Option and Result for the source's nullable values and error returns. */
module Wrappers {

  /** A value that may be absent: JavaScript's `null` for an optional state variable. */
  datatype Option<+T> = None | Some(value: T)

  /** The outcome of a check that either passes a value on or reports an error. */
  datatype Result<+T, +E> = Success(value: T) | Failure(error: E)
}
