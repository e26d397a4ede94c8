/** Optional values and results with an error, for the source's `null` returns and exceptions. */
module Wrappers {

  datatype Option<+T> = None | Some(value: T)

  /** A thrown JavaScript error is a `Failure` carrying the error's message. */
  datatype Result<+T> = Success(value: T) | Failure(error: string)
}
