/** Failure-carrying values shared by the modules of the model. */
module Common {

  /** A value that may be absent: a file that cannot be opened, a literal that does not parse. */
  datatype Option<T> = None | Some(value: T)

  /** A value, or the exception a Python call raises instead of returning it. */
  datatype Result<T, E> = Ok(value: T) | Err(error: E)
}
