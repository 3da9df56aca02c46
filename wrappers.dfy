/** Optional values and results with an error case, shared by the other modules. */
module Wrappers {

  /** A value that may be absent: a missing JSON field, or a cell that is NaN. */
  datatype Option<+T> = None | Some(value: T) {

    /** The value, or `default` when it is absent (Python's `dict.get(key, default)`). */
    function GetOr(default: T): T {
      match this
      case Some(v) => v
      case None => default
    }
  }

  /** The outcome of an operation that can raise. */
  datatype Result<+T, +E> = Success(value: T) | Failure(error: E)
}
