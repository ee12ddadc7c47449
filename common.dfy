/** Failure-carrying result types used throughout the model. */
module Common {

  /** A value that may be absent (Python's None). */
  datatype Option<+T> = None | Some(value: T)

  /** The outcome of an operation that can raise: Ok(value) or Err(error). */
  datatype Result<+T, +E> = Ok(value: T) | Err(error: E)
}
