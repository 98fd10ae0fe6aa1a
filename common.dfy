/** Failure-carrying values shared by every module of the model. */
module Common {

  /** A value that may be absent; `None` also stands for a Java `null` reference. */
  datatype Option<+T> = None | Some(value: T)

  /** The outcome of an operation that either yields a value or fails with an error. */
  datatype Result<+T, +E> = Ok(value: T) | Err(error: E)
}
