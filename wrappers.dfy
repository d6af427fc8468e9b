/** Option and Result, the failure-carrying values every layer above returns. */
module Wrappers {

  /** A value that may be absent, as a row lookup that found nothing. */
  datatype Option<+T> = None | Some(value: T)

  /** The outcome of an operation that may throw: its value or the error it raises. */
  datatype Result<+T, +E> = Success(value: T) | Failure(error: E)
}
