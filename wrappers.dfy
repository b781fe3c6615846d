/** Failure-compatible result types used for the exporter's error paths. */
module Wrappers {

  datatype Option<+T> = None | Some(value: T)

  /** Success with a value, or failure with an error (a thrown exception in the source). */
  datatype Result<+T, +E> = Success(value: T) | Failure(error: E)

  /** Normal completion, or failure with an error, for operations that return nothing. */
  datatype Outcome<+E> = Pass | Fail(error: E)
}
