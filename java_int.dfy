/** Java's fixed-width integers, written out on top of Dafny's unbounded `int`. */
module JavaInt {

  const TWO_TO_THE_32: int := 0x1_0000_0000
  const INT_MIN: int := -0x8000_0000
  const INT_MAX: int := 0x7fff_ffff

  /** A Java `int`. */
  type Int32 = x: int | -0x8000_0000 <= x < 0x8000_0000

  /** A Java `byte`. */
  type Int8 = x: int | -0x80 <= x < 0x80

  /** The two's-complement truncation Java applies to an `int` result. */
  function Wrap32(x: int): (r: Int32)
    ensures (r - x) % TWO_TO_THE_32 == 0
    ensures INT_MIN <= x <= INT_MAX ==> r == x
  {
    (x - INT_MIN) % TWO_TO_THE_32 + INT_MIN
  }

  /** Java's `a * b` on two `int`s, wrap-around included. */
  function Mul32(a: Int32, b: Int32): Int32
  {
    Wrap32(a * b)
  }
}
