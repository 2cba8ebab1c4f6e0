/** Optional values and results, standing in for the `T | null` fields and the
    error returns of the original TypeScript code. */
module Wrappers {

  /** `None` plays the role of `null` / `undefined`. */
  datatype Option<+T> = None | Some(value: T) {
    function GetOr(default: T): T {
      match this
      case Some(v) => v
      case None => default
    }
  }

  /** The outcome of a call into an external collaborator (the database). */
  datatype Result<+T, +E> = Success(value: T) | Failure(error: E)
}
