/** Failure-carrying values shared by every module of the model. */
module Wrappers {

  /** A value that may be absent; stands for JavaScript's `null`/`undefined`. */
  datatype Option<+T> = None | Some(value: T) {

    /** The carried value, or `default` when there is none. */
    function GetOr(default: T): T {
      match this
      case Some(v) => v
      case None => default
    }
  }

  /** The outcome of a computation that may throw: `Err` carries the error message. */
  datatype Result<+T> = Ok(value: T) | Err(message: string)
}
