/** Option and Result: the model's stand-ins for Go's nil results and (value, error) pairs. */
module Wrappers {

  datatype Option<+T> = None | Some(value: T)

  /** A Go `(value, error)` pair: either a value or the error's message. */
  datatype Result<+R> = Ok(value: R) | Err(error: string)
}
