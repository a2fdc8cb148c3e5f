/** Datatypes used to model the script's exceptions as values. */
module Wrappers {

  /** The outcome of an operation that either yields a value or raises an error. */
  datatype Result<+T, +E> = Success(value: T) | Failure(error: E)
}
