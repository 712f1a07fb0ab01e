/** Failure-carrying values shared by the model: a missing value and a
    computation that either succeeds or stops with an error. */
module Wrappers {
  datatype Option<+T> = None | Some(value: T)

  datatype Result<+T, +E> = Ok(value: T) | Err(error: E)
}
