/** Option, Result and Outcome: the error paths of the group file operations as values. */
module Wrappers {

  /** A value that may be absent. */
  datatype Option<+T> = None | Some(value: T)

  /** Either a value or an error. */
  datatype Result<+R, +E> = Success(value: R) | Failure(error: E)

  /** Success without a value, or an error: the outcome of an operation that raises or returns nothing. */
  datatype Outcome<+E> = Pass | Fail(error: E)
}
