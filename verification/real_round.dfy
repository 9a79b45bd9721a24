/** Rounding of a real to an integer as `f32::round` does it: to the nearest
    integer, halves away from zero. Floating-point error is not modelled. */
module RealRound {

  function Abs(x: real): real {
    if x < 0.0 then -x else x
  }

  /** The nearest integer to `x`; at an exact half, the one farther from zero.
      The two ensures together pin the result down uniquely. */
  function Round(x: real): (n: int)
    ensures Abs(n as real - x) <= 0.5
    ensures Abs(n as real - x) == 0.5 ==> Abs(n as real) > Abs(x)
  {
    if x >= 0.0 then (x + 0.5).Floor else -((-x + 0.5).Floor)
  }

  /** No other integer meets the contract of `Round`. */
  lemma RoundUnique(x: real, m: int)
    requires Abs(m as real - x) <= 0.5
    requires Abs(m as real - x) == 0.5 ==> Abs(m as real) > Abs(x)
    ensures m == Round(x)
  {
  }

  /** An integral value rounds to itself. */
  lemma RoundIntegral(n: int)
    ensures Round(n as real) == n
  {
    RoundUnique(n as real, n);
  }
}
