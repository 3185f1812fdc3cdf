/** Optional values and results, as the wire schema's nullable fields and the builders' errors need them. */
module Wrappers {

  datatype Option<+T> = None | Some(value: T)

  datatype Result<+R, +E> = Success(value: R) | Failure(error: E)
}
