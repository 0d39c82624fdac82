/** Option and Result: null references and thrown exceptions of the generator, as values. */
module Results {

  /** A reference that may be null. */
  datatype Option<+T> = None | Some(value: T)

  /** The value of a computation that may throw: `Err` carries what was thrown. */
  datatype Result<+T, +E> = Ok(value: T) | Err(error: E)
}
