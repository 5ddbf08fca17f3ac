/** Failure-carrying datatypes shared by the other modules. */
module Results {

  /** A value that may be absent. */
  datatype Option<T> = None | Some(value: T)

  /** The outcome of an operation that may raise. */
  datatype Result<T, E> = Ok(value: T) | Err(error: E)

  /** The Python exceptions the client's handlers can raise on their own input. */
  datatype Exception =
    | KeyError(key: int)     // set.remove of an absent element
    | ValueError             // chr() or ord() given a value outside its domain
    | UnicodeEncodeError     // str.encode() meeting a lone surrogate
}
