/** Failure-compatible wrappers shared by every module of the model. */
module Common {

  /** JavaScript's `value | null` (or `undefined`). */
  datatype Option<+T> = None | Some(value: T)

  /** A call that either returns a value or throws an error. */
  datatype Result<+T, +E> = Success(value: T) | Failure(error: E)
}
