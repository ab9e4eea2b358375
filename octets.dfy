/** Conversions between unsigned byte values and `bv8`. */
module Octets {
  /** An integer in the byte range survives the round trip through `bv8`. */
  lemma ByteOf(x: int)
    requires 0 <= x < 256
    ensures (x as bv8) as int == x
  {
  }
}
