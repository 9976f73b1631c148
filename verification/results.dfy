/** The success-or-error value an operation returns in place of raising. */
module Results {

  datatype Result<+T, +E> = Ok(value: T) | Err(error: E)
}
