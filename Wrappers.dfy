/** Option and Result, standing in for Rust's `Option` and `anyhow::Result`. */
module Wrappers {

  datatype Option<+T> = None | Some(value: T)

  datatype Result<+T, +E> = Success(value: T) | Failure(error: E)
}
