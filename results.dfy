/** Success and failure values shared by the locator, the transpiler and the hex codec. */
module Results {

  /** A value that may be missing (a .NET reference that may be null). */
  datatype Option<+T> = None | Some(value: T)

  /** The outcome of an operation that either produces a value or raises an exception. */
  datatype Result<+T, +E> = Ok(value: T) | Err(error: E)
}
