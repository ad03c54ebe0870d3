/** Option and Result, shared by every module of the model. */
module Wrappers {

  /** A value that may be absent: a missing header, a regular expression that did not match. */
  datatype Option<+T> = None | Some(value: T)

  /** The outcome of an operation: its value, or the error the client hands to its callback. */
  datatype Result<+R, +E> = Success(value: R) | Failure(error: E)
}
