/** Failure-carrying return types shared by the models. */
module Results {

  /** A value that may be absent (Go's nil pointer, Python's None). */
  datatype Option<+T> = None | Some(value: T)

  /** A Go-style `(value, error)` pair in which exactly one side is present. */
  datatype Result<+T, +E> = Ok(value: T) | Err(error: E)
}
