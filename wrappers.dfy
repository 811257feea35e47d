/** Optional values and error-carrying results used throughout the model. */
module Wrappers {

  /** A value that may be absent (Ruby's `nil`). */
  datatype Option<+T> = None | Some(value: T) {
    function GetOr(default: T): T {
      match this
      case Some(v) => v
      case None => default
    }
  }

  /** The outcome of a service operation: a value, or the message of the error it raised. */
  datatype Result<+T> = Ok(value: T) | Err(msg: string)
}
