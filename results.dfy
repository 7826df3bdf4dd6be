/** The failure-carrying types of the model: `Option` for a search that may
    find nothing, `Result` for Rust's `Result<T, mdbook::errors::Error>`. */
module Results {

  datatype Option<T> = None | Some(value: T)

  datatype Result<T, E> = Ok(value: T) | Err(error: E)

  /** mdbook's error type, reduced to the message its `to_string` renders. */
  datatype Error = Error(message: string)

  /** `error.to_string()`. */
  function ErrorToString(e: Error): string {
    e.message
  }
}
