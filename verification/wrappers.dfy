/** Datatypes for the Java idioms the model needs: `Option` is a nullable reference,
    `Outcome` the outcome of a check that returns normally or throws, and `Result` the
    result of a computation that yields a value or throws. */
module Wrappers {

  /** A reference that may be null. */
  datatype Option<+T> = None | Some(value: T)

  /** A check that passes or throws `error`. */
  datatype Outcome<+E> = Pass | Fail(error: E)

  /** A value, or the error thrown instead of it. */
  datatype Result<+T, +E> = Success(value: T) | Failure(error: E)
}
