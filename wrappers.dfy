/** Optional values and results, standing in for Java's null references and thrown errors. */
module Wrappers {

  /** A value that may be absent; `None` plays the part of `null`. */
  datatype Option<+T> = None | Some(value: T)

  /** The outcome of an operation that may fail with an error value instead of throwing. */
  datatype Result<+R, +E> = Success(value: R) | Failure(error: E)
}
