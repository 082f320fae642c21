/** Option and Result types of the codec model. */
module Wrappers {

  /** A value that may be absent; Go's `nil` return. */
  datatype Option<+T> = None | Some(value: T)

  /** Either a value or an error; Go's `(value, err)` pair. */
  datatype Result<+R, +E> = Success(value: R) | Failure(error: E)
}
