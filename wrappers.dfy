/** Failure-carrying result type shared by the decoder's modules. */
module Wrappers {
  datatype Result<+T, +E> = Ok(value: T) | Err(error: E)
}
