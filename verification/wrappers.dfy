/** Optional and failure-carrying values used by the eclipse model. */
module Wrappers {

  /** A value that may be absent; used for a contact event that did not happen. */
  datatype Option<+T> = None | Some(value: T)

  /** Either a computed value or the error that stopped the computation. */
  datatype Result<+R, +E> = Success(value: R) | Failure(error: E)
}
