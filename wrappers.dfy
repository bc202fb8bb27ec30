/** Option, Result and Outcome values standing for Java's null, normal and
    exceptional returns. */
module Wrappers {

  /** A reference that may be null. */
  datatype Option<+T> = None | Some(value: T)

  /** A value, or the exception that was thrown instead of producing it. */
  datatype Result<+T, +E> = Success(value: T) | Failure(error: E)

  /** Success or the exception of a void call. */
  datatype Outcome<+E> = Pass | Fail(error: E)
}
