/** The 32-bit and 64-bit signed integers of C#, and the two pieces of C#
    arithmetic the progress record relies on: unchecked wrap-around of
    `int` results and division that truncates toward zero. */
module Int32 {

  const MinInt32: int := -0x8000_0000
  const MaxInt32: int := 0x7FFF_FFFF

  type int32 = x: int | -0x8000_0000 <= x < 0x8000_0000
  type int64 = x: int | -0x8000_0000_0000_0000 <= x < 0x8000_0000_0000_0000

  /** The value C# keeps when an `int` result (or an `(int)` cast of a
      `long`) is computed in an unchecked context: the low 32 bits, read
      as two's complement. */
  function Wrap(x: int): (r: int32)
    ensures MinInt32 <= x <= MaxInt32 ==> r == x
    ensures (x - r) % 0x1_0000_0000 == 0
  {
    (x - MinInt32) % 0x1_0000_0000 + MinInt32
  }

  /** C# integer division: the quotient truncated toward zero, which is
      Dafny's (Euclidean) division only when both operands are positive. */
  function TruncDiv(a: int, b: int): (q: int)
    requires b != 0
    ensures a >= 0 && b > 0 ==> q == a / b
  {
    if b > 0 then
      (if a >= 0 then a / b else -((-a) / b))
    else
      (if a >= 0 then -(a / -b) else (-a) / (-b))
  }

  function Min(a: int, b: int): (m: int)
    ensures m <= a && m <= b
    ensures m == a || m == b
  {
    if a < b then a else b
  }
}
