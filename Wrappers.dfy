/** Optional values and results with an error message, used for the JavaScript
    `undefined` and for the places where the system throws an Error. */
module Wrappers {

  datatype Option<+T> = None | Some(value: T)

  /** `Failure(msg)` stands for `throw new Error(msg)`. */
  datatype Result<+T> = Success(value: T) | Failure(error: string)
}
