/** Option and Result, the two outcome shapes the model uses. */
module Wrappers {

  /** A value that may be absent (TypeScript's `T | undefined`). */
  datatype Option<+T> = None | Some(value: T) {

    /** The value, or `default` when absent (TypeScript's `??`). */
    function GetOr(default: T): T {
      match this
      case Some(v) => v
      case None => default
    }
  }

  /** Either a result or the error a `throw` would have raised. */
  datatype Result<+R, +E> = Success(value: R) | Failure(error: E)
}
