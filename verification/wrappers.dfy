/** Failure-compatible wrappers shared by the model. */
module Wrappers {

  /** A value that may be missing: Python's `None` where the source uses it. */
  datatype Option<+T> = None | Some(value: T)

  /** The outcome of an operation that the source lets raise. */
  datatype Result<+T, +E> = Ok(value: T) | Err(error: E)
}
