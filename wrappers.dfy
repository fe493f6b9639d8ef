/** Result type for operations of the registry that can throw. */
module Wrappers {

  datatype Result<+T, +E> = Success(value: T) | Failure(error: E)
}
