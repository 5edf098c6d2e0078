/** Rust's `u8`: the glyph bytes, the bytes of a `str`. */
module Bytes {
  newtype uint8 = x: int | 0 <= x < 0x100
}
