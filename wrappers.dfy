/** Optional values and results with an error, used for JavaScript's `undefined`
    options and for the exceptions the codec throws. */
module Wrappers {

  datatype Option<+T> = None | Some(value: T)

  datatype Result<+R, +E> = Success(value: R) | Failure(error: E)
}
