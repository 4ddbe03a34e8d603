/** Optional values and results with an error, as used by the parsers of the model. */
module Wrappers {

  /** A value that may be absent: Python's `None` or SQL `NULL`. */
  datatype Option<+T> = None | Some(value: T)

  /** The outcome of an operation that may raise an error. */
  datatype Result<+R, +E> = Ok(value: R) | Err(error: E)
}
