/** The integers of the source that wrap, as numbers without a sign. */
module Integers {
  type byte = b: int | 0 <= b < 256

  /** 32 bits. */
  type word = w: nat | w < 0x1_0000_0000
}
