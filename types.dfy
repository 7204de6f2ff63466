/** Values shared by every module: Go's `byte` and the failure wrappers used
    in place of Go's `(value, error)` pairs. */
module Types {

  /** Go's `byte`: an unsigned 8-bit integer. */
  newtype byte = x: int | 0 <= x < 256

  datatype Option<+T> = None | Some(value: T)

  /** A Go `(value, err)` pair where exactly one side is meaningful. */
  datatype Result<+T, +E> = Ok(value: T) | Err(error: E)
}
