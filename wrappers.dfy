/** Optional values and success/failure outcomes, used where the source has
    `undefined`, `null` or a promise that may reject. */
module Wrappers {

  datatype Option<+T> = None | Some(value: T)

  datatype Result<+R, +E> = Success(value: R) | Failure(error: E)
}
