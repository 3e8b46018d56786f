/** Bytes as numbers; `Coverage` and `Bitmap`, which work on bits, use `bv8` instead. */
module Bytes {
  type byte = x: int | 0 <= x < 256
}
