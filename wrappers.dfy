/** The optional and fallible values shared by the other modules. */
module Wrappers {

  datatype Option<+T> = None | Some(value: T)

  /** The outcome of an operation that can fail, like Rust's `Result`. */
  datatype Result<+T, +E> = Ok(value: T) | Err(error: E)
}
