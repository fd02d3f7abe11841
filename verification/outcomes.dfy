/** Optional values and success/failure results, used where the source has
    `undefined` fields or a rejected promise. */
module Outcomes {

  datatype Option<+T> = None | Some(value: T)

  datatype Result<+R, +E> = Success(value: R) | Failure(error: E)
}
