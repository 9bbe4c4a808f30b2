/** Failure-carrying values used across the model: an optional value and the
    outcome of an operation that the script would otherwise end by raising. */
module Wrappers {

  datatype Option<T> = None | Some(value: T)

  datatype Result<T, E> = Ok(value: T) | Err(error: E)
}
