/** Failure-carrying values used throughout the model. */
module Wrappers {

  /** A value that may be absent. */
  datatype Option<+T> = None | Some(value: T)

  /** Either a computed value or the error that prevented it, like Go's `(T, error)` pair
      when the value is meaningless whenever the error is set. */
  datatype Result<+R, +E> = Success(value: R) | Failure(error: E)
}
