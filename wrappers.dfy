/** Optional values and the success-or-thrown outcome of a call. */
module Wrappers {

  /** A value that may be absent: TypeScript's `T | undefined` and `T | null`. */
  datatype Option<+T> = None | Some(value: T)

  /** The outcome of a call that either returns a value or throws. */
  datatype Result<+T> = Success(value: T) | Failure
}
