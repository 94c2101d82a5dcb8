/** Optional values and success/failure results shared by every component. */
module Wrappers {

  /** A value that may be missing (Python's `None`). */
  datatype Option<+T> = None | Some(value: T)

  /** The outcome of an operation that can fail with an error of kind `E`. */
  datatype Result<+T, +E> = Ok(value: T) | Err(error: E)
}
