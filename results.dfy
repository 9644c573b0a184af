/** The outcome of an operation that Python would abort with an exception. */
module Results {
  datatype Result<T, E> = Success(value: T) | Failure(error: E)
}
