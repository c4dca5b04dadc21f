/** Failure-carrying result types shared by the model. */
module Wrappers {

  /** A value that may be absent; the model's stand-in for a Go nil pointer. */
  datatype Option<+T> = None | Some(value: T)

  /** Either a value or the error that prevented computing it. */
  datatype Result<+R, +E> = Success(value: R) | Failure(error: E)
}
