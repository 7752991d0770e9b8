/** Failure-compatible result types shared by the model. */
module Wrappers {

  datatype Option<+T> = None | Some(value: T)

  datatype Result<+R, +E> = Success(value: R) | Failure(error: E)

  /** A Go `error` return: `nil` is Pass, anything else is Fail. */
  datatype Outcome<+E> = Pass | Fail(error: E)
}
