/** Go's `(value, error)` return pairs, written as values. */
module Wrappers {

  /** A value that may be absent (a Go `error` that may be nil, for one). */
  datatype Option<+T> = None | Some(value: T)

  /** Either the value a Go function returns alongside a nil error, or the non-nil error. */
  datatype Result<+T, +E> = Success(value: T) | Failure(error: E)
}
