/** Optional values and success-or-error outcomes, the shape of Go's `(T, error)` returns. */
module Results {

  /** A value that may be absent, like a Go map lookup with its `ok` flag. */
  datatype Option<+T> = None | Some(value: T)

  /** Either a computed value or the error that stopped the computation. */
  datatype Result<+T, +E> = Success(value: T) | Failure(error: E)
}
