/** Failure-carrying result types shared by every module of the model. */
module Wrappers {

  /** A value that may be missing: Python's `None`, or an exception that the
      caller does not distinguish further. */
  datatype Option<+T> = None | Some(value: T)

  /** A value or an error describing why there is none. */
  datatype Result<+T, +E> = Success(value: T) | Failure(error: E)
}
