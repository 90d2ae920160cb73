/** Failure-carrying wrappers shared by every module of the model. */
module Common {

  /** An optional value, Rust's `Option<T>`. */
  datatype Option<+T> = None | Some(value: T)

  /** A value or an error, Rust's `Result<T, E>` (here `anyhow::Result`). */
  datatype Result<+T, +E> = Ok(value: T) | Err(error: E)
}
