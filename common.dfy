/** Shared vocabulary of the search tool's model. */
module Common {

  /** The `Result<T, String>` returned by the program's fallible steps:
      a value, or a human-readable error message. */
  datatype Result<T> = Ok(value: T) | Err(msg: string)

  datatype Option<T> = None | Some(value: T)
}
