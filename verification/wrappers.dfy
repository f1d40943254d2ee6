/** The optional-value and outcome datatypes shared by the import and export models. */
module Wrappers {

  /** A value that may be missing; stands for PHP's `null`. */
  datatype Option<+T> = None | Some(value: T) {

    /** Returns the encapsulated value, or `default` when there is none. */
    function GetOr(default: T): T {
      match this
      case Some(v) => v
      case None => default
    }
  }

  /** The outcome of an operation that may raise an exception. */
  datatype Result<+R, +E> = Success(value: R) | Failure(error: E)
}
