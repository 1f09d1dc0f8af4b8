/** Failure-carrying datatypes shared by every other module. */
module Results {

  /** An optional value: a missing key, an unparsable string. */
  datatype Option<+T> = None | Some(value: T)

  /** The value of an operation, or the error it raised instead. */
  datatype Result<+T, +E> = Ok(value: T) | Err(error: E)
}
