/** Failure-carrying result types shared by the rest of the model. */
module Wrappers {

  /** A value that may be absent: a JSON field that was not sent, a row that was not found. */
  datatype Option<+T> = None | Some(value: T)

  /** The outcome of a route: a success payload or an error value. */
  datatype Result<+R, +E> = Success(value: R) | Failure(error: E)
}
