/** Failure-carrying value types shared by the whole model. */
module Wrappers {

  /** A value that may be absent: JavaScript's `undefined` is `None`. */
  datatype Option<+T> = None | Some(value: T)

  /** The `{ success: true, ... } | { success: false, error }` objects the service returns. */
  datatype Result<+T, +E> = Success(value: T) | Failure(error: E)
}
