/** Option and Result, the failure-carrying types used by the header model. */
module Wrappers {

  datatype Option<+T> = None | Some(value: T)

  /** The outcome of an operation that may raise a protocol error. */
  datatype Result<+R, +E> = Ok(value: R) | Err(error: E)
}
