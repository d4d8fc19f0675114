/** Shared value types: optional values, fallible results and the fixed-width
    integers the program uses (`u8` pixel bytes, `u32` milliseconds). */
module Common {

  datatype Option<+T> = None | Some(value: T)

  datatype Result<+T, +E> = Ok(value: T) | Err(error: E)

  /** A pixel byte (Rust `u8`). */
  type Byte = b: int | 0 <= b < 256

  const U32Modulus: nat := 0x1_0000_0000

  /** A Rust `u32`. */
  type U32 = n: int | 0 <= n < U32Modulus
}
