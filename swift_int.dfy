/**
  Swift's `/` and `%` on `Int` truncate toward zero, unlike Dafny's Euclidean
  operators. These are written out so that negative operands behave as in Swift.
 */
module SwiftInt {

  /** `Int.max` on a 64-bit platform. */
  const INT_MAX: int := 0x7FFF_FFFF_FFFF_FFFF

  /** Swift's `a / b` for a positive divisor. */
  function Div(a: int, b: int): int
    requires b > 0
  {
    if a >= 0 then a / b else -((-a) / b)
  }

  /** Swift's `a % b` for a positive divisor: the remainder takes the sign of `a`. */
  function Rem(a: int, b: int): (r: int)
    requires b > 0
    ensures a == Div(a, b) * b + r
    ensures a >= 0 ==> 0 <= r < b
    ensures a < 0 ==> -b < r <= 0
  {
    if a >= 0 then a % b else -((-a) % b)
  }

  /** On non-negative operands the Swift and Dafny operators agree. */
  lemma {:induction false} AgreeOnNonNegative(a: int, b: int)
    requires a >= 0 && b > 0
    ensures Div(a, b) == a / b && Rem(a, b) == a % b
  {
  }
}
