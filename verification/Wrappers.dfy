/** The result datatypes shared by every component of the model. */
module Wrappers {

  /** A value that may be absent: a null lookup, an end of stream. */
  datatype Option<+T> = None | Some(value: T)

  /** A computation that may stop with an error: a thrown exception, a panic. */
  datatype Result<+T, +E> = Ok(value: T) | Err(error: E)

  /** What strings and streams on the wire are made of. */
  type byte = bv8
}
