/** Shared value types: a byte, Python's optional arguments and the outcome
    of a `struct.pack`/`struct.unpack` call. */
module Wrappers {

  /** An unsigned 8-bit value, as packed and unpacked with format 'B'. */
  type byte = x: int | 0 <= x < 256

  /** True when `x` can be packed with format 'B' without `struct.error`. */
  predicate IsByte(x: int) {
    0 <= x < 256
  }

  /** An optional argument: `None` or a value. */
  datatype Option<T> = None | Some(value: T)

  /** The `struct.error` raised by `pack` (a field is not a byte) or by
      `unpack` (the buffer has the wrong length). */
  datatype StructError = PackError | UnpackError

  /** The result of a codec call: the value, or the `struct.error` it raised. */
  datatype Result<T> = Ok(value: T) | Err(error: StructError)
}
