/** Failure-carrying datatypes shared by the parsers and the argument validator. */
module Wrappers {

  /** Rust's `Option<T>`. */
  datatype Option<+T> = None | Some(value: T)

  /** Rust's `Result<T, E>`: a parsed value or the reason the input was refused. */
  datatype Result<+R, +E> = Success(value: R) | Failure(error: E)
}
