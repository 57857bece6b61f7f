/** Failure-compatible wrappers shared by the other modules. */
module Wrappers {

  /** A value that may be missing: the model's stand-in for `null`/`undefined`. */
  datatype Option<+T> = None | Some(value: T)

  /** The outcome of an operation that can fail with an error value. */
  datatype Result<+T, +E> = Success(value: T) | Failure(error: E)
}
