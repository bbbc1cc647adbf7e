/** Optional values and results with an error, used wherever the source
    returns null or NaN, or stops with an exception. */
module Wrappers {

  /** A value that may be absent: JavaScript null/undefined/NaN, a missing key. */
  datatype Option<+T> = None | Some(value: T)

  /** A computation that either produced a value or stopped with an error. */
  datatype Result<+T, +E> = Success(value: T) | Failure(error: E)
}
