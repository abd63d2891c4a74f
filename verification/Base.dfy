/** Datatypes shared by every component. */
module Base {

  datatype Option<+T> = None | Some(value: T)

  /** A raised exception of the source is an `Err`. */
  datatype Result<+T, +E> = Ok(value: T) | Err(error: E)

  /** An instant in UTC, in microseconds. */
  type Instant = int
}
