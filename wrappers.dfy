/** Small shared definitions: the byte type and a result type for the
    fatal error paths of the two tools. */
module Wrappers {

  /** An unsigned 8-bit value, as held in a Python `bytes` object. */
  type byte = x: int | 0 <= x < 0x100

  /** Either a value or the error that ended the operation. */
  datatype Result<+T, +E> = Ok(value: T) | Err(error: E)
}
