/** Failure-carrying result types shared by the model. */
module Wrappers {

  /** A value that may be missing (a JavaScript `undefined` or a skipped branch). */
  datatype Option<+T> = None | Some(value: T) {

    /** The carried value, or `default` when there is none. */
    function GetOr(default: T): T {
      match this
      case Some(v) => v
      case None => default
    }
  }

  /** The outcome of an operation that may throw: a value, or the error it threw. */
  datatype Result<+T, +E> = Success(value: T) | Failure(error: E)
}
