/** Small failure-compatible wrappers used for the error paths of the model. */
module Wrappers {

  /** A value that may be absent: a missing state, a missing record. */
  datatype Option<+T> = None | Some(value: T)

  /** A computation that yields a value or an error. */
  datatype Result<+R, +E> = Success(value: R) | Failure(error: E)

  /** A computation that yields nothing on success or an error. */
  datatype Outcome<+E> = Pass | Fail(error: E)
}
