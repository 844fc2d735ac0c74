/** Optional values and results with an error, used for every operation of the
    model that the original program ends by throwing an exception. */
module Wrappers {

  datatype Option<+T> = None | Some(value: T)

  datatype Result<+R, +E> = Success(value: R) | Failure(error: E)
}
