/** Optional values and results with an error case. */
module Wrappers {

  /** A value that may be missing: the data loader returns `None` when it fails. */
  datatype Option<+T> = None | Some(value: T)

  /** A computation that either succeeds with a value or fails with an error value. */
  datatype Result<+T, +E> = Success(value: T) | Failure(error: E)
}
