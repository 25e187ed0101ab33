/** The two failure-carrying datatypes the model uses for Java's null and for thrown exceptions. */
module Wrappers {

  /** An optional value: `None` stands for Java's `null` or an empty `Optional`. */
  datatype Option<+T> = None | Some(value: T)

  /** The outcome of a computation that either returns normally or throws. */
  datatype Result<+T, +E> = Success(value: T) | Failure(error: E)
}
