/** Optional values and results with an error case, used for the nullable
    metadata and for the exceptions the factories throw. */
module Wrappers {

  datatype Option<+T> = None | Some(value: T)

  datatype Result<+T, +E> = Success(value: T) | Failure(error: E)
}
