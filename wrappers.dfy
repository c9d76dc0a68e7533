/** Result types standing for Python's exceptions. */
module Wrappers {

  /** A possibly missing value. */
  datatype Option<+T> = None | Some(value: T)

  /** The outcome of a check that returns nothing or raises. */
  datatype Outcome<+E> = Pass | Fail(error: E)

  /** A value, or the error that was raised instead. */
  datatype Result<+R, +E> = Success(value: R) | Failure(error: E)
}
