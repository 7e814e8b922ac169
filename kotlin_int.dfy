/** Kotlin's `Int`: a 32-bit two's-complement integer whose `*` and `-` wrap
    around silently, and `kotlin.math.abs`, which maps `Int.MIN_VALUE` to
    itself because its positive counterpart is not representable. */
module KotlinInt {
  const MIN_VALUE: int := -0x8000_0000
  const MAX_VALUE: int := 0x7fff_ffff
  const MODULUS: int := 0x1_0000_0000

  newtype Int32 = x: int | -0x8000_0000 <= x <= 0x7fff_ffff

  /** The 32-bit value an overflowing integer computation leaves behind. */
  function Wrap(x: int): (r: Int32)
    ensures (r as int - x) % MODULUS == 0
    ensures MIN_VALUE <= x <= MAX_VALUE ==> r as int == x
  {
    ((x - MIN_VALUE) % MODULUS + MIN_VALUE) as Int32
  }

  /** Kotlin's `a * b` on `Int`. */
  function Mul(a: Int32, b: Int32): Int32 {
    Wrap(a as int * b as int)
  }

  /** Kotlin's `a - b` on `Int`. */
  function Sub(a: Int32, b: Int32): Int32 {
    Wrap(a as int - b as int)
  }

  /** `kotlin.math.abs(a)` on `Int`. */
  function Abs(a: Int32): (r: Int32)
    ensures (r >= 0) == (a as int != MIN_VALUE)
    ensures r == a || r as int == -(a as int)
  {
    if a < 0 && a as int != MIN_VALUE then -a else a
  }
}
