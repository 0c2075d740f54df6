/** Failure-carrying values used in place of the exceptions the operator raises. */
module Wrappers {

  datatype Option<+T> = None | Some(value: T)

  /** A value or the error that replaced it. */
  datatype Result<+T, +E> = Success(value: T) | Failure(error: E)

  /** Success without a value (a Python call returning None) or the error it raised. */
  datatype Outcome<+E> = Pass | Fail(error: E)
}
