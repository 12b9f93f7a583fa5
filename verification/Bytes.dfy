/** Bytes, 16-bit words and the result types shared by the modules. */
module Bytes {
  type byte = x: int | 0 <= x < 256
  type word = x: int | 0 <= x < 0x1_0000

  datatype Result<+T> = Ok(value: T) | Err
  datatype Option<+T> = None | Some(value: T)
}
