/** Failure-carrying datatypes used across the model: `Option` for PHP `null`
    and Python `False`/`None` results, `Result` for operations that throw. */
module Wrappers {

  datatype Option<+T> = None | Some(value: T) {

    /** The wrapped value, or `default` when there is none. */
    function GetOr(default: T): T {
      match this
      case Some(v) => v
      case None => default
    }
  }

  /** An operation either completes with a value or throws `error`. */
  datatype Result<+T, +E> = Success(value: T) | Failure(error: E)

  /** PHP coerces `null` to the empty string wherever a string is expected. */
  function Str(s: Option<string>): string {
    s.GetOr("")
  }
}
