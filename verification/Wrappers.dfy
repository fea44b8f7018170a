/** The two result shapes shared by every component of the model. */
module Wrappers {

  datatype Option<+T> = None | Some(value: T)

  /** A Rust `Result` whose error carries data the caller can observe. */
  datatype Result<+T, +E> = Ok(value: T) | Err(error: E)
}
