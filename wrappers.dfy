/** Plain `Option` and `Result` wrappers shared by the modules of the model. */
module Wrappers {

  datatype Option<+T> = None | Some(value: T) {
    /** The value, or `default` when there is none. */
    function GetOr(default: T): T {
      match this
      case Some(v) => v
      case None => default
    }
  }

  /** The value of a computation, or the exception the source raises instead. */
  datatype Result<+R, +E> = Success(value: R) | Failure(error: E)
}
