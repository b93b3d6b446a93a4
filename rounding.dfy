/** Exact decimal helpers shared by the amount parser and the summary
    projector: powers of ten and rounding of a rational to an integer with
    ROUND_HALF_EVEN, the rounding of Python's default decimal context. */
module Rounding {

  function Abs(x: int): nat
  {
    if x < 0 then -x else x
  }

  function Pow10(k: nat): (p: nat)
    ensures p >= 1
  {
    if k == 0 then 1 else 10 * Pow10(k - 1)
  }

  /** The integer nearest to num / den; a tie goes to the even neighbour. */
  function RoundHalfEven(num: int, den: int): (q: int)
    requires den > 0
    ensures 2 * Abs(num - q * den) <= den
    ensures 2 * Abs(num - q * den) == den ==> q % 2 == 0
    ensures num >= 0 ==> q >= 0
  {
    var f := num / den;
    var r := num % den;
    assert num - f * den == r;
    assert num - (f + 1) * den == r - den;
    if 2 * r < den then f
    else if 2 * r > den then f + 1
    else if f % 2 == 0 then f
    else f + 1
  }

  /** The two properties in RoundHalfEven's contract determine its result. */
  lemma RoundHalfEvenUnique(num: int, den: int, q: int)
    requires den > 0
    requires 2 * Abs(num - q * den) <= den
    requires 2 * Abs(num - q * den) == den ==> q % 2 == 0
    ensures q == RoundHalfEven(num, den)
  {
    var p := RoundHalfEven(num, den);
    var a, b := num - q * den, num - p * den;
    // Both candidates lie within half a den of num, so they are at most one
    // apart; one apart forces two ties, which cannot both be even.
    if q != p {
      StepApart(q, p, den);
      StepApart(p, q, den);
    }
  }

  /** Shifting the candidate by d multiples moves the remainder by d * den. */
  lemma StepApart(q: int, p: int, den: int)
    requires den > 0
    ensures q >= p + 2 ==> q * den >= p * den + 2 * den
    ensures q == p + 1 ==> q * den == p * den + den
  {
    if q >= p + 2 {
      var d := q - p - 2;
      assert q * den == p * den + 2 * den + d * den;
    }
  }

  /** An exact quotient is returned unchanged. */
  lemma RoundHalfEvenExact(m: int, den: int)
    requires den > 0
    ensures RoundHalfEven(m * den, den) == m
  {
    RoundHalfEvenUnique(m * den, den, m);
  }
}
