/** Option and Result: the model's stand-ins for `null` and for thrown exceptions. */
module Wrappers {

  datatype Option<+T> = None | Some(value: T)

  /** Either the value a call returns or the error it throws. */
  datatype Result<+R, +E> = Success(value: R) | Failure(error: E)
}
