/** The optional-value datatype used wherever the JavaScript code tests a
    value against `null` or `undefined`, and the outcome of a call that may
    throw. */
module Wrappers {

  datatype Option<+T> = None | Some(value: T) {

    /** The value, or `default` when there is none. */
    function GetOr(default: T): T {
      match this
      case Some(v) => v
      case None => default
    }
  }

  /** The outcome of a call that may throw: its value, or the message of the
      exception it threw. */
  datatype Result<+T, +E> = Success(value: T) | Failure(error: E)
}
