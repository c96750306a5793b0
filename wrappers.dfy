/** Optional values and results with an error, shared by the other modules. */
module Wrappers {

  /** A value that may be absent: an optional field of a JSON record. */
  datatype Option<+T> = None | Some(value: T) {
    /** The value, or `default` when it is absent. */
    function GetOr(default: T): T {
      match this
      case Some(v) => v
      case None => default
    }
  }

  /** The outcome of a computation that may throw. */
  datatype Result<+T, +E> = Ok(value: T) | Err(error: E)
}
