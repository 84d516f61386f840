/** Option and Result, used for the program's optional values and raised errors. */
module Support {
  datatype Option<+T> = None | Some(value: T)

  datatype Result<+T, +E> = Ok(value: T) | Err(error: E)
}
