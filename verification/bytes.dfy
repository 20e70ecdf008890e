/** Bytes as the integers 0 to 255, the values of Python's bytearray and
    Rust's u8. */
module Bytes {
  newtype Byte = x: int | 0 <= x < 256
}
