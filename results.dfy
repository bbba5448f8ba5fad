/** Failure-carrying wrappers used by the list distribution model. */
module Results {

  /** A value that may be absent (an empty file selection). */
  datatype Option<T> = None | Some(value: T)

  /** The outcome of an operation that can fail with an error of type E. */
  datatype Result<T, E> = Ok(value: T) | Err(error: E)
}
