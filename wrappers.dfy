/** Failure-carrying result types shared by the model. */
module Wrappers {

  /** A value that may be absent: a parse that failed, a decode that failed. */
  datatype Option<+T> = None | Some(value: T) {
    function GetOr(default: T): T {
      match this
      case Some(v) => v
      case None => default
    }
  }

  /** A value, or the exception a Python expression raises instead. */
  datatype Result<+T, +E> = Ok(value: T) | Err(error: E)
}
