/**
 Machine integers and arithmetic shared by several components.
 */
module Numbers {
  const TWO_16 := 0x1_0000
  const TWO_31 := 0x8000_0000
  const TWO_32 := 0x1_0000_0000
  const TWO_64 := 0x1_0000_0000_0000_0000

  type Byte = b: nat | b < 256
  type Sample16 = x: int | -0x8000 <= x < 0x8000

  function Min(a: nat, b: nat): nat { if a <= b then a else b }

  function Clamp16(x: int): Sample16 { if x < -0x8000 then -0x8000 else if x > 0x7FFF then 0x7FFF else x }

  /** Signed 32-bit value of a result computed modulo 2^32. */
  function Wrap32(x: int): (r: int)
    ensures -TWO_31 <= r < TWO_31 && (r - x) % TWO_32 == 0
  {
    var m := x % TWO_32;
    if m < TWO_31 then m else m - TWO_32
  }

  lemma MulLe(a: int, b: int, c: int)
    requires a <= b && c >= 0
    ensures a * c <= b * c
  {}

  /** Quotient and remainder are known by their equation. */
  lemma DivMod(x: int, d: int, q: int, r: int)
    requires d > 0 && x == q * d + r && 0 <= r < d
    ensures x / d == q && x % d == r
  {
    var k := x / d - q;
    assert k * d == r - x % d by {
      assert x == x / d * d + x % d;
      assert (x / d - q) * d == x / d * d - q * d;
    }
    if k >= 1 { MulLe(1, k, d); }
    if k <= -1 { MulLe(k, -1, d); }
  }
}
