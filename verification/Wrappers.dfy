/** Failure-carrying values shared by the deck model. */
module Wrappers {

  /** A value that may be absent, e.g. a path segment that is not an integer. */
  datatype Option<+T> = None | Some(value: T)

  /** The outcome of an operation: a value, or the kind of error the service reports. */
  datatype Result<+T, +E> = Success(value: T) | Failure(error: E)
}
