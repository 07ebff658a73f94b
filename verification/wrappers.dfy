/** Failure-carrying values shared by the other modules. */
module Wrappers {

  /** A value that may be absent; stands in for a Go pointer or interface that may be nil. */
  datatype Option<+T> = None | Some(value: T)

  /** Either a value or an error, as in a Go `(value, error)` pair where exactly one is set. */
  datatype Result<+R, +E> = Success(value: R) | Failure(error: E)
}
