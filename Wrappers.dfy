/** Optional values and error-carrying results shared by every module of the model. */
module Wrappers {

  /** A value that may be absent: a nil value in Go, or the "not found" case. */
  datatype Option<+T> = None | Some(value: T)

  /** Either a value or the error text of a Go `error` return. */
  datatype Result<+T> = Ok(value: T) | Err(error: string)
}
