/** Small shared vocabulary: Go's uint8, and the Option/Result shapes used for
    the handler's `(value, error)` returns. */
module Wrappers {

  /** Go's `uint8` / `byte`. */
  type byte = b: int | 0 <= b < 256

  datatype Option<+T> = None | Some(value: T)

  /** A Go `(value, error)` pair: exactly one of the two is meaningful. */
  datatype Result<+T> = Success(value: T) | Failure(error: string)
}
