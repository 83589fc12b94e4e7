/** Option and Result, the two failure-carrying datatypes the model is written with. */
module Wrappers {

  /** A value that may be absent: a header that is not there, a tag the signature lacks. */
  datatype Option<+T> = None | Some(value: T) {

    /** The value when present, otherwise `default` (Python's `dict.get(key, default)`). */
    function GetOr(default: T): T {
      match this
      case Some(v) => v
      case None => default
    }
  }

  /** The outcome of a computation that either returns a value or raises an error that escapes to the caller. */
  datatype Result<+R, +E> = Success(value: R) | Failure(error: E)
}
