/** Failure-carrying values shared by the model's modules. */
module Options {

  /** A value that may be absent: a nullable reference, a missing child. */
  datatype Option<+T> = None | Some(value: T)

  /** The outcome of a step that either produces a value or fails with an error. */
  datatype Result<+T, +E> = Ok(value: T) | Err(error: E)
}
