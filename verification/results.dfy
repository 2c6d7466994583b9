/** Failure-carrying datatypes shared by the phonebook model. */
module Results {

  /** The value an operation returns, or the exception it raises instead. */
  datatype Result<+T, +E> = Ok(value: T) | Err(error: E)

  /** A value that may be absent, such as a file that does not exist. */
  datatype Option<+T> = None | Some(value: T)
}
