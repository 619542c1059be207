/** The outcome of an operation that can raise `std::invalid_argument`. */
module Results {
  datatype Result<T, E> = Success(value: T) | Failure(error: E)
}
