/** Optional-value and outcome types shared by the modules of this model. */
module Wrappers {

  /** A value that may be absent: TypeScript's optional parameter or `null`. */
  datatype Option<+T> = None | Some(value: T)

  /** The outcome of an operation that either returns a value or throws. */
  datatype Result<+T, +E> = Success(value: T) | Failure(error: E)
}
