/** Byte strings and the two failure-carrying wrappers used throughout the model. */
module Types {

  /** One byte, as Go's `byte`. */
  newtype byte = x: int | 0 <= x < 256

  /** A Go `[]byte`; a Go `string` converted with `[]byte(s)` is the same sequence. */
  type Bytes = seq<byte>

  datatype Option<+T> = None | Some(value: T)

  /** The `(value, err)` pair of a Go call that may fail. */
  datatype Result<+T, +E> = Success(value: T) | Failure(error: E)
}
