/** Option and Result values used across the model. */
module Wrappers {
  datatype Option<T> = None | Some(value: T)

  /** The outcome of an operation that the Java code can abort with an exception. */
  datatype Result<T> = Ok(value: T) | Failure(error: string)
}
