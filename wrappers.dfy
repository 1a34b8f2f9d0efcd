/** Failure-compatible result types shared by the other modules. */
module Wrappers {

  /** A value that may be absent: JavaScript's `undefined`. */
  datatype Option<+T> = None | Some(value: T)

  /** The outcome of an operation that can throw: the value, or the error message. */
  datatype Result<+R, +E> = Success(value: R) | Failure(error: E)
}
