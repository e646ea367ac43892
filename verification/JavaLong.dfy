/** Java's 64-bit `long` and its wrapping addition. */
module JavaLong {

  const MinLong: int := -0x8000_0000_0000_0000
  const MaxLong: int := 0x7fff_ffff_ffff_ffff
  const Modulus: int := 0x1_0000_0000_0000_0000

  type Long = x: int | MinLong <= x <= MaxLong

  /** `a + b` on Java longs: the mathematical sum reduced into the long range
      modulo 2^64 (two's-complement wrap-around). */
  function Add(a: Long, b: Long): (r: Long)
    ensures (r - (a + b)) % Modulus == 0
    ensures MinLong <= a + b <= MaxLong ==> r == a + b
    ensures a + b > MaxLong ==> r == a + b - Modulus
    ensures a + b < MinLong ==> r == a + b + Modulus
  {
    (a + b - MinLong) % Modulus + MinLong
  }
}
