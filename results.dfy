/** The outcome of an operation that raises an exception in the source:
    either its value or the kind of error it raises. */
module Results {

  datatype Result<+T, +E> = Ok(value: T) | Err(error: E)
}
