/** Optional values and results with an error, as used throughout the model. */
module Wrappers {

  /** A value that may be absent (Python's `None`). */
  datatype Option<+T> = None | Some(value: T)

  /** The outcome of a computation that may raise. */
  datatype Result<+R, +E> = Ok(value: R) | Err(error: E)
}
