/** Nullable values and fallible results. */
module Wrappers {

  /** A C# nullable value: `null` is None. */
  datatype Option<+T> = None | Some(value: T) {

    /** The wrapped value, or `default` when null (C#'s `??`). */
    function GetOr(default: T): T {
      match this
      case Some(v) => v
      case None => default
    }
  }

  /** The outcome of an operation that throws on failure in the source. */
  datatype Result<+T, +E> = Ok(value: T) | Err(error: E)
}
