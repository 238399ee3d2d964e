/** C#'s `uint`: 32-bit unsigned integers whose arithmetic wraps silently
    (an `unchecked` context, which is the compiler's default). */
module UInt32 {

  const Modulus: int := 0x1_0000_0000

  type U32 = x: int | 0 <= x < Modulus

  /** `a - b` on `uint`: the mathematical difference reduced modulo 2^32.
      When `b` exceeds `a` the result wraps around to a value ABOVE `a`. */
  function Sub(a: U32, b: U32): (r: U32)
    ensures b <= a ==> r == a - b
    ensures a < b ==> r == a - b + Modulus && a < r
    ensures r == 0 <==> a == b
    ensures (r + b) % Modulus == a
  {
    (a - b) % Modulus
  }
}
