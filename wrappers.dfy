/** Optional values and results, used for nullable columns (NaN is `None`) and for an operation
    that raises. */
module Wrappers {

  datatype Option<+T> = None | Some(value: T)

  datatype Result<+R, +E> = Success(value: R) | Failure(error: E)
}
