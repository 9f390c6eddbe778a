/** Optional values and results with an error, used wherever the application
    returns `None`, raises, or answers with an error response. */
module Wrappers {

  datatype Option<+T> = None | Some(value: T)

  datatype Result<+T, +E> = Success(value: T) | Failure(error: E)
}
