/** Failure-carrying result types shared by the modules of this model. */
module Wrappers {

  /** A value that may be absent: the model's stand-in for `null` / `undefined`. */
  datatype Option<+T> = None | Some(value: T) {

    /** The wrapped value, or `default` when absent (the `??` operator). */
    function GetOr(default: T): T {
      match this
      case Some(v) => v
      case None => default
    }
  }

  /** Either a value or the error a `throw` would have raised. */
  datatype Result<+T, +E> = Ok(value: T) | Err(error: E)
}
