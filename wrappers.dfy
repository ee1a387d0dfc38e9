/** Option and Result, the shapes Python's None and raised exceptions take in this model. */
module Wrappers {

  datatype Option<+T> = None | Some(value: T) {
    /** `x or default`: the value when present, the default otherwise. */
    function GetOr(default: T): T {
      match this
      case Some(v) => v
      case None => default
    }
  }

  /** A computation that either returns a value or raises an error. */
  datatype Result<+R, +E> = Success(value: R) | Failure(error: E)
}
