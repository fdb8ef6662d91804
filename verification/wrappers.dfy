/** Option and Result, used for absent attribute values and for the error paths of the scripts. */
module Wrappers {

  datatype Option<+T> = None | Some(value: T)

  /** The outcome of an operation that Python would end with an exception. */
  datatype Result<+R, +E> = Ok(value: R) | Err(error: E)
}
