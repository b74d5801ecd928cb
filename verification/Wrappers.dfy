// The outcome of an operation that reports an error instead of a value.
module Wrappers {
  datatype Result<+T, +E> = Ok(value: T) | Err(error: E)

  datatype Option<+T> = None | Some(value: T)
}
