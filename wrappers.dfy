/** Option and Result, the failure-carrying values used across the model. */
module Wrappers {

  datatype Option<+T> = None | Some(value: T) {
    function GetOr(default: T): T {
      match this
      case Some(v) => v
      case None => default
    }
  }

  /** A route handler's JSON reply: the HTTP status and its `message` field. */
  datatype Response = Response(status: int, message: string)

  datatype Result<+T, +E> = Ok(value: T) | Err(error: E)
}
