/**
 Unsigned 32-bit words as used throughout the BFS core: vertex ids, row
 offsets and distances are all `uint32_t`. Dafny integers are unbounded, so
 the wrap-around of `1 + x` and the signed reinterpretation performed by a
 lane extract are written out here explicitly.
 */
module Uint32 {

  const U32_LIMIT: int := 0x1_0000_0000
  const I32_LIMIT: int := 0x8000_0000

  type u32 = x: int | 0 <= x < 0x1_0000_0000

  /** `std::min` on two unsigned words. */
  function Min(a: u32, b: u32): u32 {
    if b < a then b else a
  }

  /** The minimum of four words does not depend on how they are paired. */
  lemma MinSwap(a: u32, b: u32, c: u32, d: u32)
    ensures Min(Min(a, b), Min(c, d)) == Min(Min(a, c), Min(b, d))
  {
  }

  /** The unsigned sum `1 + v`, wrapping to 0 at the top of the range. */
  function Inc(v: u32): u32 {
    if v == U32_LIMIT - 1 then 0 else v + 1
  }

  /** Reading a 32-bit lane as a signed `int` (two's complement). */
  function ToI32(v: u32): (r: int)
    ensures -I32_LIMIT <= r < I32_LIMIT
    ensures r < 0 <==> v >= I32_LIMIT
  {
    if v < I32_LIMIT then v else v - U32_LIMIT
  }

  /** Casting a signed 32-bit `int` back to `uint32_t`: negative values wrap
      to the upper half of the range. */
  function ToU32(v: int): (r: u32)
    requires -I32_LIMIT <= v < I32_LIMIT
    ensures r >= I32_LIMIT <==> v < 0
  {
    if v < 0 then v + U32_LIMIT else v
  }

  /** The two casts are inverse to each other, and both preserve the value
      modulo 2^32. */
  lemma CastsRoundTrip(u: u32, i: int)
    requires -I32_LIMIT <= i < I32_LIMIT
    ensures ToU32(ToI32(u)) == u
    ensures ToI32(ToU32(i)) == i
    ensures (ToI32(u) - u) % U32_LIMIT == 0 && (ToU32(i) - i) % U32_LIMIT == 0
  {
  }

  /** On the lower half of the range the signed view agrees with the
      unsigned one, so a signed `std::min` picks the same lane. */
  lemma SignedMinAgrees(a: u32, b: u32)
    requires a < I32_LIMIT && b < I32_LIMIT
    ensures ToU32(if ToI32(a) <= ToI32(b) then ToI32(a) else ToI32(b)) == Min(a, b)
  {
  }
}
