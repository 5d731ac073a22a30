/** Option and Result: absent JavaScript values and thrown exceptions, as data. */
module Wrappers {

  /** A value that may be absent (`undefined` in the source). */
  datatype Option<+T> = None | Some(value: T) {

    /** The value if present, otherwise `default`. */
    function GetOr(default: T): T {
      match this
      case Some(v) => v
      case None => default
    }
  }

  /** The outcome of a step that can throw. */
  datatype Result<+R, +E> = Success(value: R) | Failure(error: E)
}
