/** Optional values and results with a typed error, standing in for the
    `null` returns and the error messages of the original script. */
module Wrappers {

  /** A value that may be absent (`null` in the original). */
  datatype Option<+T> = None | Some(value: T)

  /** Either a value or a typed error. */
  datatype Result<+T, +E> = Ok(value: T) | Err(error: E)
}
