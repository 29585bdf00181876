/** The failure-carrying return type, the Dafny counterpart of Rust's `Result`. */
module Wrappers {

  datatype Result<+T, +E> = Ok(value: T) | Err(error: E)
}
