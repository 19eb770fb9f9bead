/**
 * Java's 32-bit `int` arithmetic: two's-complement wrap-around on overflow
 * and integer division that rounds toward zero (sections 15.17.2 and 15.18.2
 * of the Java Language Specification). The search code computes its midpoint in `int`,
 * so that computation is stated here with the width made explicit.
 */
module JavaInt {

  const INT32_MIN: int := -0x8000_0000
  const INT32_MAX: int := 0x7fff_ffff
  const MODULUS: int := 0x1_0000_0000

  newtype int32 = x: int | INT32_MIN <= x <= INT32_MAX

  predicate InRange(x: int) {
    INT32_MIN <= x <= INT32_MAX
  }

  /**
   * The int32 value that the result x of one int operation wraps around to.
   * Such a result lies within one modulus of the int range.
   */
  function Wrap(x: int): (r: int32)
    requires INT32_MIN - MODULUS <= x <= INT32_MAX + MODULUS
    ensures InRange(x) ==> r as int == x
    ensures r as int == x || r as int == x - MODULUS || r as int == x + MODULUS
  {
    if x > INT32_MAX then (x - MODULUS) as int32
    else if x < INT32_MIN then (x + MODULUS) as int32
    else x as int32
  }

  /** Java's `a + b` on ints. */
  function Add(a: int32, b: int32): (r: int32)
    ensures InRange(a as int + b as int) ==> r as int == a as int + b as int
  {
    Wrap(a as int + b as int)
  }

  /** Java's `a - b` on ints. */
  function Sub(a: int32, b: int32): (r: int32)
    ensures InRange(a as int - b as int) ==> r as int == a as int - b as int
  {
    Wrap(a as int - b as int)
  }

  /**
   * Java's `a / 2` on ints: division that rounds toward zero. The result
   * always fits, so nothing wraps.
   */
  function Half(a: int32): (r: int32)
    ensures a >= 0 ==> 0 <= a as int - 2 * r as int <= 1
    ensures a < 0 ==> -1 <= a as int - 2 * r as int <= 0
  {
    if a >= 0 then a / 2 else -((-(a as int)) / 2) as int32
  }
}
