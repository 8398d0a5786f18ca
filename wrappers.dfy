/** Small failure-carrying datatypes used by the model. */
module Wrappers {

  datatype Option<+T> = None | Some(value: T) {
    /** The wrapped value, or `default` when there is none (JavaScript's `x || default`). */
    function GetOr(default: T): T {
      match this
      case Some(v) => v
      case None => default
    }
  }

  /** A value, or the error a call would have thrown. */
  datatype Result<+T, +E> = Success(value: T) | Failure(error: E)
}
