/** Bytes as numbers, and the number-to-bit-vector conversion the checksum code relies on. */
module Bytes {
  type byte = x: int | 0 <= x < 256

  lemma ByteRoundTrip(b: int)
    requires 0 <= b < 256
    ensures (b as bv8) as int == b
  {
    assert b % 256 == b;
  }

  lemma NumberRoundTrip(y: bv8)
    ensures 0 <= y as int < 256 && (y as int) as bv8 == y
  {
  }
}
