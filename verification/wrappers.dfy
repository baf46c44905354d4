/** Failure-carrying values used for the simulator's operations that raise. */
module Wrappers {

  /** A value that may be absent. */
  datatype Option<+T> = None | Some(value: T)

  /** Either a successful value or the error that the simulator would raise. */
  datatype Result<+T, +E> = Success(value: T) | Failure(error: E)
}
