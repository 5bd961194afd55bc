/** The optional value (Python's `None`) and the outcome (a value or an error) shared by the modules of the model. */
module Options {
  datatype Option<+T> = None | Some(value: T)

  datatype Result<+T, +E> = Ok(value: T) | Err(error: E)
}
