/** Optional values and success/failure results, used for nullable columns and for
    operations that can reject their input. */
module Wrappers {

  /** A value that may be absent; `None` plays the part of Python's `None` and SQL's NULL. */
  datatype Option<+T> = None | Some(value: T)

  /** The outcome of an operation that either produces a value or fails with an error. */
  datatype Result<+R, +E> = Success(value: R) | Failure(error: E)
}
