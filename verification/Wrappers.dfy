/** The two result shapes every other module uses. */
module Wrappers {

  datatype Option<+T> = None | Some(value: T)

  /** A value, or the failure the program raises instead. */
  datatype Result<+T, +E> = Success(value: T) | Failure(error: E)
}
