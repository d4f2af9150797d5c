/** Shared vocabulary: bytes, text and the failure-carrying wrappers. */
module Base {

  /** One octet. */
  type byte = b: int | 0 <= b < 256

  type Bytes = seq<byte>

  /** A Python `str`, represented by its UTF-8 encoding. */
  type Text = Bytes

  datatype Option<+T> = None | Some(value: T)

  /** The outcome of an operation that may raise: `Err` carries the exception. */
  datatype Result<+T, +E> = Ok(value: T) | Err(error: E)
}
