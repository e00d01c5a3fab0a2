/** Optional values and results with an error, as used throughout the model. */
module Wrappers {

  /** Python's `None` or a value. */
  datatype Option<+T> = None | Some(value: T)

  /** A value, or the exception the source raises instead of returning one. */
  datatype Result<+R, +E> = Success(value: R) | Failure(error: E)
}
