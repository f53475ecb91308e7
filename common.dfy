/** Small wrapper datatypes shared by every module of the model. */
module Common {

  /** A value that may be absent: the model's stand-in for JavaScript's
      `undefined` / `null` in request bodies and query strings. */
  datatype Option<+T> = None | Some(value: T)

  /** The outcome of an operation that can throw. */
  datatype Result<+T, +E> = Ok(value: T) | Err(error: E)
}
