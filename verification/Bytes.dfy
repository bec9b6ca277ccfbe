/** Bytes as integers, and the same bytes as bit vectors. */
module Bytes {
  type byte = x: int | 0 <= x < 256

  lemma Increment(x: bv8)
    requires x as int < 255
    ensures (x + 1) as int == x as int + 1
  {
  }

  function ToBits(b: byte): (r: bv8)
    ensures r as int == b
  {
    if b == 0 then 0 else Increment(ToBits(b - 1)); ToBits(b - 1) + 1
  }
}
