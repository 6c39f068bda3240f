/** Optional values and error-carrying results used across the model. */
module Wrappers {

  datatype Option<+T> = None | Some(value: T)

  /** The outcome of an operation that can raise in the chef. */
  datatype Result<+T, +E> = Success(value: T) | Failure(error: E)
}
