/** Optional values and results shared by the whole model. */
module Outcomes {

  /** A value that may be missing: JavaScript's `undefined`. */
  datatype Option<+T> = None | Some(value: T)

  /** The settled state of a request handler's promise: a value or a rejection. */
  datatype Result<+T, +E> = Ok(value: T) | Err(error: E)
}
