/** Failure-carrying result types shared by the scheduling model. */
module Wrappers {

  /** A value that may be missing: a pandas NaN/NaT cell, a failed lookup. */
  datatype Option<+T> = None | Some(value: T) {
    function GetOr(default: T): T {
      match this
      case Some(v) => v
      case None => default
    }
  }

  /** The outcome of an operation that produces a value or is rejected. */
  datatype Result<+R, +E> = Success(value: R) | Failure(error: E)

  /** The outcome of an operation that produces no value but may be rejected. */
  datatype Outcome<+E> = Pass | Fail(error: E)
}
