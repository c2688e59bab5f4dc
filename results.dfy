/** The success-or-error value that the model uses wherever the source raises an exception. */
module Results {

  datatype Result<+T, +E> = Ok(value: T) | Err(error: E)
}
