/** C integer operators that differ from Dafny's.
    Dafny's `/` on `int` is Euclidean; C's `/` truncates toward zero, and
    `>>` on a signed value is (with the usual compilers) an arithmetic shift,
    that is, division by a power of two rounded toward minus infinity. */
module CArith {

  /** C's `a / b` for a positive divisor: the quotient rounded toward zero. */
  function TruncDiv(a: int, b: int): (q: int)
    requires b > 0
    ensures a >= 0 ==> 0 <= a - q * b < b
    ensures a < 0 ==> -b < a - q * b <= 0
  {
    if a >= 0 then a / b else -((-a) / b)
  }

  /** C's `v >> 6` on a signed 26.6 fixed-point value: the integer part,
      rounded toward minus infinity. */
  function Shr6(v: int): (r: int)
    ensures 64 * r <= v < 64 * r + 64
  {
    v / 64
  }
}
