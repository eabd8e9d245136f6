/** Optional values and results shared by the subtitle model. */
module Wrappers {

  /** Python's `None` or a present value. */
  datatype Option<+T> = None | Some(value: T)

  /** A computation that either produced a value or raised an error of kind `E`. */
  datatype Result<+T, +E> = Ok(value: T) | Err(error: E)
}
