/** Failure-carrying result types shared by every operation of the model. */
module Wrappers {

  datatype Option<+T> = None | Some(value: T)

  /** An operation that yields a value or an error. */
  datatype Result<+R, +E> = Success(value: R) | Failure(error: E)

  /** An operation that yields nothing but may fail. */
  datatype Outcome<+E> = Pass | Fail(error: E)
}
