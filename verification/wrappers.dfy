/** Optional values and results shared by every service model. */
module Wrappers {

  /** A value that may be absent (Python's `None`). */
  datatype Option<+T> = None | Some(value: T)

  /** The outcome of an operation that may raise instead of returning. */
  datatype Result<+T, +E> = Ok(value: T) | Err(error: E)
}
