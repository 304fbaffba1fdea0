/** Fixed-width unsigned integers of the input format. */
module Bytes {

  /** Rust `u8`: one byte of the input buffer. */
  type u8 = x: int | 0 <= x < 0x100

  /** Rust `u16`. */
  type u16 = x: int | 0 <= x < 0x1_0000

  /**
   * The little-endian 16-bit field `(lo as u16) | ((hi as u16) << 8)`. The two
   * bytes occupy disjoint bits, so the OR is a sum; the result splits back
   * into exactly `lo` (low byte) and `hi` (high byte).
   */
  function Le16(lo: u8, hi: u8): (r: u16)
    ensures r % 0x100 == lo && r / 0x100 == hi
  {
    lo + 0x100 * hi
  }
}
