/** Failure-carrying results shared by the models of the two macros. */
module Wrappers {

  /** A value that may be absent. */
  datatype Option<+T> = None | Some(value: T)

  /** Either a successful value or the reason an expansion was aborted. */
  datatype Result<+R, +E> = Success(value: R) | Failure(error: E)
}
