/**
 * JavaScript's rounding functions on exact reals. The modelled code applies
 * them to quotients of whole milliseconds and to fractions of a second, which
 * are modelled exactly rather than as binary floating point.
 */
module JsMath {
  /** `Math.ceil(x)`: the least integer not below `x`. */
  function Ceil(x: real): (c: int)
    ensures x <= c as real < x + 1.0
  {
    -((-x).Floor)
  }

  /** `Math.round(x)`: the nearest integer, halves rounded towards positive infinity. */
  function Round(x: real): (r: int)
    ensures x - 0.5 < r as real <= x + 0.5
  {
    (x + 0.5).Floor
  }

  /** Rounding a value between 0 and `n` stays between 0 and `n`. */
  lemma RoundWithin(x: real, n: nat)
    requires 0.0 <= x <= n as real
    ensures 0 <= Round(x) <= n
  {
  }

  /** Rounding never reverses the order of two values. */
  lemma RoundMonotone(x: real, y: real)
    requires x <= y
    ensures Round(x) <= Round(y)
  {
  }

  /** A whole number rounds to itself. */
  lemma RoundOfWhole(n: int)
    ensures Round(n as real) == n
  {
  }
}
