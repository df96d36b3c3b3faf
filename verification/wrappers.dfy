/** Optional values and failure-carrying results, as used throughout the model
    for Java's `Optional` and for the exceptions the source throws. */
module Wrappers {

  datatype Option<+T> = None | Some(value: T)

  datatype Result<+R, +E> = Success(value: R) | Failure(error: E)
}
