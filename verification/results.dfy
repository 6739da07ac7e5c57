/** Small failure-carrying datatypes shared by the codec and the preference. */
module Results {

  /** A value that may be absent: Java's nullable reference. */
  datatype Option<+T> = None | Some(value: T)

  /** A computation that either yields a value or fails with an error: a Java
      method that returns normally or throws. */
  datatype Result<+T, +E> = Ok(value: T) | Err(error: E)
}
