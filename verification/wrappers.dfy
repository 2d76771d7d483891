/** Failure-compatible result types shared by the whole model. A thrown
    JavaScript `Error` becomes a `Failure`/`Fail` carrying an `Errors.Error`. */
module Wrappers {

  /** An optional value, used for the outcome of a regular-expression match. */
  datatype Option<+T> = None | Some(value: T)

  /** A value-carrying computation that either returns or throws. */
  datatype Result<+R, +E> = Success(value: R) | Failure(error: E)

  /** A computation that either completes normally or throws. */
  datatype Outcome<+E> = Pass | Fail(error: E)
}
