/** Option, Result and Outcome: the failure-carrying values the model uses in
    place of Swift optionals and thrown errors. */
module Wrappers {

  /** Swift's `T?`. */
  datatype Option<+T> = None | Some(value: T) {

    /** The value, or `default` when absent (Swift's `?? default`). */
    function GetOr(default: T): T {
      match this
      case Some(v) => v
      case None => default
    }
  }

  /** A value or the error a Swift `throws` function would have thrown. */
  datatype Result<+T, +E> = Success(value: T) | Failure(error: E)

  /** The completion of a `throws` function returning `Void`. */
  datatype Outcome<+E> = Pass | Fail(error: E)
}
