/** Values and the errors that the JavaScript code throws or returns. */
module Results {
  datatype Option<+T> = None | Some(value: T)

  datatype Result<+T> = Ok(value: T) | Failure(error: string)
}
