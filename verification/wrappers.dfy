/** Optional values and results with an error, used for every operation that
    can raise an exception in the modelled client. */
module Wrappers {

  datatype Option<+T> = None | Some(value: T)

  datatype Result<+R, +E> = Success(value: R) | Failure(error: E)
}
