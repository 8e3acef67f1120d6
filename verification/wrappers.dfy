/** Failure-carrying datatypes shared by the model: a Java reference that may be
    null, and the outcome of an operation that may raise an exception. */
module Wrappers {

  /** A value that may be absent; `None` stands for a Java `null`. */
  datatype Option<+T> = None | Some(value: T)

  /** The result of a computation that either returns a value or raises `error`. */
  datatype Result<+R, +E> = Success(value: R) | Failure(error: E)

  /** The result of a `void` computation that either completes or raises `error`. */
  datatype Outcome<+E> = Pass | Fail(error: E)
}
