/** The optional value and the success-or-error value shared by the modules. */
module Options {

  /** A value that may be absent: JavaScript's `undefined`/`null`, or an id. */
  datatype Option<+T> = None | Some(value: T)

  /** A computed value, or what the JavaScript code throws instead. */
  datatype Result<+T, +E> = Ok(value: T) | Err(error: E)
}
