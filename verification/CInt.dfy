/** C's 32-bit integers. */
module CInt {

  /** C's `int`. */
  type Int32 = x: int | -0x8000_0000 <= x < 0x8000_0000

  const INT_MIN: Int32 := -0x8000_0000

  /** A C `int` after overflow. */
  function Wrap32(x: int): (r: Int32) {
    (x + 0x8000_0000) % 0x1_0000_0000 - 0x8000_0000
  }

  lemma WrapAdd(x: int, k: int)
    ensures Wrap32(Wrap32(x) + k) == Wrap32(x + k)
  {
  }

  lemma WrapShift(x: int, q: int)
    ensures Wrap32(x - 0x1_0000_0000 * q) == Wrap32(x)
  {
  }

  lemma WrapNegative(x: int, y: int)
    requires x + y == 0
    ensures Wrap32(0 - Wrap32(x)) == Wrap32(y)
  {
  }
}
