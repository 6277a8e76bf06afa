/** Failure-carrying values shared by every module of the model. */
module Wrappers {

  /** A value that may be missing. */
  datatype Option<+T> = None | Some(value: T)

  /** A value, or the reason the computation that should produce it failed. */
  datatype Result<+T, +E> = Ok(value: T) | Err(error: E)
}
