/** Option and Result, the shapes used for Python's None-or-value and raise-or-return. */
module Results {
  datatype Option<T> = None | Some(value: T)

  datatype Result<T, E> = Success(value: T) | Failure(error: E)
}
