/** Value types shared by every layer of the model. */
module Basics {

  /** One octet; Go's `byte`. */
  newtype byte = x: int | 0 <= x < 256

  /** A Go `[]byte`; a nil slice and an empty one are both `[]`. */
  type Bytes = seq<byte>

  datatype Option<+T> = None | Some(value: T)

  /** A Go `(value, error)` pair where exactly one side is meaningful. */
  datatype Result<+T, +E> = Ok(value: T) | Err(error: E)
}
