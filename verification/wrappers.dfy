/** Optional values and results that carry either a value or an error. */
module Wrappers {

  /** A value that may be absent: a C# or TypeScript `null`. */
  datatype Option<+T> = None | Some(value: T)

  /** The outcome of an operation that either yields a value or throws. */
  datatype Result<+T, +E> = Success(value: T) | Failure(error: E)
}
