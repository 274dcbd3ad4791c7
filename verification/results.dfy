/** Failure-carrying values shared by the sync modules. */
module Results {

  /** A value that may be absent, such as the row a point lookup finds. */
  datatype Option<+T> = None | Some(value: T)

  /** The value of a step that may fail with an error, such as mapping a source row. */
  datatype Result<+T, +E> = Ok(value: T) | Err(error: E)
}
