/** Primitive types and the error-carrying wrappers shared by every cache. */
module Base {

  /** An unsigned 8-bit value, as read from a byte stream. */
  type byte = x: int | 0 <= x < 0x100

  /** Rust's `u32`. */
  type u32 = x: int | 0 <= x < 0x1_0000_0000

  /** An `f32` field, kept as its IEEE-754 bit pattern and compared only for equality. */
  type F32 = x: int | 0 <= x < 0x1_0000_0000

  datatype Option<T> = None | Some(value: T)

  datatype Result<T, E> = Ok(value: T) | Err(error: E)
}
