/** Failure-carrying datatypes shared by the model: Python's `None` and the
    handlers' early returns become values of these types. */
module Wrappers {

  /** An optional value: a form field that was not submitted, an XML element
      `find` did not locate, a parse that raised. */
  datatype Option<+T> = None | Some(value: T) {

    /** The value, or `default` when there is none (Python's `dict.get(k, default)`). */
    function GetOr(default: T): T {
      match this
      case Some(v) => v
      case None => default
    }
  }

  /** Either a value or the reason there is none. */
  datatype Result<+R, +E> = Success(value: R) | Failure(error: E)
}
