/** Optional values and success/failure results, used for SQL NULLs and for the error exits of an upload. */
module Wrappers {

  datatype Option<+T> = None | Some(value: T)

  datatype Result<+R, +E> = Success(value: R) | Failure(error: E)
}
