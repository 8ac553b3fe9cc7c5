/** Optional values and results with an error, used where the services
    either have a value or take an early-return error path. */
module Wrappers {

  /** A value that may be absent (an omitted query parameter, a date that
      does not parse). */
  datatype Option<+T> = None | Some(value: T)

  /** The outcome of a validation step: a value, or the error message the
      handler sends back. */
  datatype Result<+R, +E> = Success(value: R) | Failure(error: E)
}
