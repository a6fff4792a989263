/** An optional value (Python's `X | None`) and a value-or-error result, the
    error being the exception the scraper would raise. */
module Wrappers {

  /** An optional value; `None` plays the part of Python's `None`. */
  datatype Option<+T> = None | Some(value: T) {

    /** The wrapped value, or `default` when there is none (Python's `x or default`
        for values whose only falsy form is the empty one). */
    function GetOr(default: T): T {
      match this
      case Some(v) => v
      case None => default
    }
  }

  /** Either the value an operation returns or the error it raises. */
  datatype Result<+R, +E> = Success(value: R) | Failure(error: E)
}
