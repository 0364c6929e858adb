/** Nullable references and outcomes that may carry an error. */
module Wrappers {
  /** A C# reference that may be null. */
  datatype Option<+T> = None | Some(value: T) {
    /** The value, or `default` for null. */
    function GetOr(default: T): T {
      match this
      case Some(v) => v
      case None => default
    }
  }

  /** A value, or the exception that was thrown instead. */
  datatype Result<+T, +E> = Success(value: T) | Failure(error: E)
}
