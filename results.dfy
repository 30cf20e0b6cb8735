/** The outcome of an operation that can fail: a value, or a typed error
    standing for the exception the source raises. */
module Results {
  datatype Result<+T, +E> = Success(value: T) | Failure(error: E)
}
