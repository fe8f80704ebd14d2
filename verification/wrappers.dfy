/** Failure-carrying result types shared by the model. */
module Wrappers {

  /** A value that may be missing. */
  datatype Option<+T> = None | Some(value: T)

  /** A computed value, or the error that stopped the computation. */
  datatype Result<+T, +E> = Ok(value: T) | Err(error: E)
}
