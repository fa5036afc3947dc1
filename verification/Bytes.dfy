/** Bytes and the widths of words, shared by every layer. */
module Bytes {
  type byte = b: int | 0 <= b < 256

  const WORD_16: nat := 0x1_0000
  const WORD_32: nat := 0x1_0000_0000
  const WORD_64: nat := 0x1_0000_0000_0000_0000

  function Min(a: nat, b: nat): nat {
    if a < b then a else b
  }
}
