/** Failure-carrying result types shared by the models. */
module Wrappers {

  datatype Option<+T> = None | Some(value: T)

  /** A value or the error that stopped its computation. */
  datatype Result<+R, +E> = Success(value: R) | Failure(error: E)

  /** Success or the error that was raised; carries no value. */
  datatype Outcome<+E> = Pass | Fail(error: E)
}
