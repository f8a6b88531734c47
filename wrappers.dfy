/** Option and Result datatypes shared by the other modules. */
module Wrappers {

  /** A value that may be absent; Rust's `Option`. */
  datatype Option<+T> = None | Some(value: T)

  /** A value or an error; Rust's `Result`. */
  datatype Result<+R, +E> = Success(value: R) | Failure(error: E)
}
