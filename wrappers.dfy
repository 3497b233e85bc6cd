/** Optional values and results with an error, as used throughout the model. */
module Wrappers {

  /** A value that may be absent; Python's `None` is `None` here. */
  datatype Option<+T> = None | Some(value: T)

  /** The outcome of a step that can raise: its value, or a description of the error. */
  datatype Result<+R, +E> = Success(value: R) | Failure(error: E)
}
