/** Option and Result, the two failure-carrying wrappers the rest of the model returns. */
module Wrappers {

  datatype Option<+T> = None | Some(value: T)

  /** The Rust `Result`: a value on success, a tagged error otherwise. */
  datatype Result<+T, +E> = Ok(value: T) | Err(error: E)
}
