/** Failure-compatible wrappers used across the model. */
module Wrappers {

  /** A value that may be missing: JavaScript's `undefined`/`null` or a failed lookup. */
  datatype Option<+T> = None | Some(value: T)

  /** The outcome of an operation that can throw in the source. */
  datatype Result<+T, +E> = Success(value: T) | Failure(error: E)
}
