/** Failure-carrying values shared by the modules of this model. */
module Results {

  /** An optional value, Rust's `Option<T>`. */
  datatype Option<+T> = None | Some(value: T)

  /** An operation that either yields a value or fails with a message,
      standing for `anyhow::Result<T>`: only the error's text is kept. */
  datatype Result<+T> = Ok(value: T) | Err(error: string)
}
