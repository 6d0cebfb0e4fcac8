/** Failure-carrying datatypes used across the model: a JavaScript value that
    may be missing (`undefined`, `NaN`) is an `Option`, an operation that may
    throw is a `Result`. */
module Wrappers {

  datatype Option<+T> = None | Some(value: T)

  datatype Result<+R, +E> = Ok(value: R) | Err(error: E)
}
