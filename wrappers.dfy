/** Option and Result types shared by every module of the model. A Rust
    `Option` is an `Option` here; a Rust `Result`, or a panic that the model
    turns into an explicit outcome, is a `Result`. */
module Wrappers {

  datatype Option<+T> = None | Some(value: T)

  datatype Result<+T, +E> = Ok(value: T) | Err(error: E)
}
