/** The two failure carriers the model uses in place of Ruby's nil and raised exceptions. */
module Results {
  datatype Option<+T> = None | Some(value: T)

  datatype Result<+T, +E> = Ok(value: T) | Err(error: E)
}
