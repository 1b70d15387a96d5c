/** The JavaScript number operations the screens apply to integer values: `Math.round`,
    `Math.floor` of a quotient, and the truncating `%` operator. */
module JsMath {

  /** `Math.round`: the nearest integer, a half rounded up. */
  function Round(x: real): (r: int)
    ensures r as real - 0.5 <= x < r as real + 0.5
  {
    (x + 0.5).Floor
  }

  /** `Math.floor(n / k)` for a positive divisor: Dafny's division rounds down when the
      divisor is positive, which is what `Math.floor` does to the exact quotient. */
  function FloorDiv(n: int, k: int): (r: int)
    requires k > 0
    ensures r * k <= n < r * k + k
  {
    n / k
  }

  /** The `%` operator on integers: it truncates, so the remainder takes the dividend's sign. */
  function Rem(a: int, b: int): (r: int)
    requires b > 0
    ensures a >= 0 ==> r == a % b
    ensures a < 0 ==> -b < r <= 0 && r == -((-a) % b)
  {
    if a >= 0 then a % b else -((-a) % b)
  }

  /** The remainder of a negated dividend is the negated remainder. */
  lemma RemNegate(a: int, b: int)
    requires b > 0
    ensures Rem(-a, b) == -Rem(a, b)
  {
  }

  /** For a non-negative dividend, `Math.floor(n / k)` and `n % k` are quotient and
      remainder: `n` is recovered from them. */
  lemma FloorDivRem(n: int, k: int)
    requires n >= 0 && k > 0
    ensures FloorDiv(n, k) * k + Rem(n, k) == n
    ensures 0 <= Rem(n, k) < k
  {
  }
}
