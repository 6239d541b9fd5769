/** Failure-carrying datatypes shared by the modules of this model. */
module Wrappers {

  /** A value that may be absent (PHP `null`, `false` from a lookup). */
  datatype Option<+T> = None | Some(value: T)

  /** A value or the exception that was thrown instead of returning it. */
  datatype Result<+T, +E> = Success(value: T) | Failure(error: E)

  /** Normal completion of a `void` operation, or the exception it threw. */
  datatype Outcome<+E> = Pass | Fail(error: E)
}
