/** Option and Result, standing for Go's "value or nil" and "(value, error)" returns. */
module Wrappers {
  datatype Option<+T> = None | Some(value: T)

  datatype Result<+T, +E> = Ok(value: T) | Err(error: E)
}
