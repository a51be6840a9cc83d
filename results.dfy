/** Option and Result values used for the error paths of the model. */
module Results {

  datatype Option<+T> = None | Some(value: T)

  /** The outcome of an operation that raises a Python exception on error. */
  datatype Result<+T, +E> = Ok(value: T) | Err(error: E)
}
