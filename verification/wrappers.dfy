/** Optional values and fallible results, the two shapes every operation of
    the model returns. */
module Wrappers {

  /** A value that may be absent, as a key that may be missing from a record. */
  datatype Option<+T> = None | Some(value: T) {

    /** The carried value, or `default` when there is none. */
    function GetOr(default: T): T {
      match this
      case Some(v) => v
      case None => default
    }
  }

  /** The outcome of an operation that can raise. */
  datatype Result<+R, +E> = Success(value: R) | Failure(error: E)
}
