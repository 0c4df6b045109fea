/** Optional values and success/failure results, used wherever the source
    returns a nil pointer or an `error` next to its value. */
module Options {

  /** A value that may be absent (a nil pointer in the source). */
  datatype Option<+T> = None | Some(value: T)

  /** Either a value or the reason there is none. */
  datatype Result<+R, +E> = Success(value: R) | Failure(error: E)
}
