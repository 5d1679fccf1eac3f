/** Go's int, which is 64 bits wide. */
module Integers {
  const MIN_INT64 := -0x8000_0000_0000_0000
  const MAX_INT64 := 0x7fff_ffff_ffff_ffff

  /** Addition of in-range operands, which wraps around. */
  function WrappingAdd(a: int, b: int): (s: int)
    ensures -0x8000_0000_0000_0000 <= a < 0x8000_0000_0000_0000 && -0x8000_0000_0000_0000 <= b < 0x8000_0000_0000_0000
            ==> -0x8000_0000_0000_0000 <= s < 0x8000_0000_0000_0000
  {
    var s := a + b;
    if s >= 0x8000_0000_0000_0000 then s - 0x1_0000_0000_0000_0000
    else if s < -0x8000_0000_0000_0000 then s + 0x1_0000_0000_0000_0000
    else s
  }

  function Power2(n: nat): nat { if n == 0 then 1 else 2 * Power2(n - 1) }

  lemma ProductOrdered(j: nat, k: nat, m: nat)
    requires j <= k
    ensures j * m <= k * m
  {
  }
}
