/** Failure-carrying datatypes shared by the whole model: an optional value
    and a value-or-error result (the model's rendering of Rust's `Option`
    and `Result`). */
module Wrappers {

  datatype Option<+T> = None | Some(value: T)

  datatype Result<+T, +E> = Ok(value: T) | Err(error: E)
}
