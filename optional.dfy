/** Absent values and failing calls: JavaScript's `null` and thrown errors. */
module Optional {

  datatype Option<T> = None | Some(value: T)

  datatype Result<T, E> = Success(value: T) | Failure(error: E)
}
