/** Outcome of an operation that the source lets raise an exception. */
module Results {

  datatype Result<+T, +E> = Ok(value: T) | Err(error: E)
}
