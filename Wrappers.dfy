/** Option and Result, the two failure-carrying values the model needs:
    a table cell that may be missing, and an operation that may raise. */
module Wrappers {

  /** A value that may be absent; `None` stands for a missing table cell. */
  datatype Option<+T> = None | Some(value: T)

  /** The outcome of an operation that either succeeds or raises an error. */
  datatype Result<+R, +E> = Success(value: R) | Failure(error: E)
}
