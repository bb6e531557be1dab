/** Optional values, standing for JavaScript's `undefined`/`null` on an absent field. */
module Wrappers {

  datatype Option<+T> = None | Some(value: T)

  /** An outcome that is either a value or the reason it could not be produced. */
  datatype Result<+T, +E> = Success(value: T) | Failure(error: E)
}
