/** Failure-carrying datatypes used across the model. */
module Wrappers {

  /** A value that may be missing. */
  datatype Option<+T> = None | Some(value: T)

  /** The outcome of an operation that can fail, shaped like Rust's `Result`. */
  datatype Result<+T, +E> = Ok(value: T) | Err(error: E)
}
