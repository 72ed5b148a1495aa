/** Outcomes of operations that can fail with a message. */
module Results {

  datatype Result<T> = Success(value: T) | Failure(error: string)

  datatype Option<T> = None | Some(value: T)
}
