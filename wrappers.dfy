/** Failure-compatible wrappers used across the model. */
module Wrappers {

  datatype Option<+T> = None | Some(value: T)

  /** The outcome of an operation that the script aborts with an exception. */
  datatype Result<+R> = Ok(value: R) | Err(message: string)
}
