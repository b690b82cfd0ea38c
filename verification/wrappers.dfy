/** Failure-carrying wrappers used by the card operations in place of Java's
    Optional and thrown exceptions. */
module Wrappers {

  /** `java.util.Optional`: a value that may be absent. */
  datatype Option<+T> = None | Some(value: T)

  /** The outcome of an operation: a value, or the error it raised. */
  datatype Result<+R, +E> = Ok(value: R) | Err(error: E)
}
