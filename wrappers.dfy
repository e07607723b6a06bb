/** Option and Result, the failure-carrying values used throughout the model. */
module Wrappers {

  datatype Option<+T> = None | Some(value: T)

  /** The value of a computation that either completes or throws. */
  datatype Result<+T, +E> = Ok(value: T) | Err(error: E)
}
