/** Rounding a number to two decimal places, as the service does before it
    reports a percentage or the class average. Values are exact reals. */
module Rounding {

  /** x has at most two decimal places: 100 * x is a whole number. */
  predicate IsCents(x: real)
  {
    (x * 100.0).Floor as real == x * 100.0
  }

  /** The number of cents x is rounded to: the nearest whole number of
      hundredths, and on an exact half the even one. */
  function RoundedCents(x: real): (n: int)
    ensures -0.5 <= n as real - x * 100.0 <= 0.5
    ensures n as real - x * 100.0 == 0.5 ==> n % 2 == 0
    ensures n as real - x * 100.0 == -0.5 ==> n % 2 == 0
  {
    var y := x * 100.0;
    var k := y.Floor;
    var f := y - k as real;
    if f < 0.5 then k
    else if f > 0.5 then k + 1
    else if k % 2 == 0 then k
    else k + 1
  }

  /** x rounded to two decimal places. */
  function Round2(x: real): (r: real)
    ensures IsCents(r)
    ensures -0.005 <= r - x <= 0.005
  {
    RoundedCents(x) as real / 100.0
  }

  /** Rounding leaves a value that already has two decimal places unchanged. */
  lemma Round2OfCents(x: real)
    requires IsCents(x)
    ensures Round2(x) == x
  {
  }

  /** Rounding never reverses the order of two values. */
  lemma Round2Monotone(x: real, y: real)
    requires x <= y
    ensures Round2(x) <= Round2(y)
  {
    // Each count of cents lies within half a cent of its input, and an
    // exact half goes to the even neighbour, so the counts cannot cross.
    var nx, ny := RoundedCents(x), RoundedCents(y);
    assert nx <= ny;
  }

  /** A value between two two-decimal bounds stays between them once rounded. */
  lemma Round2Between(lo: real, x: real, hi: real)
    requires IsCents(lo) && IsCents(hi)
    requires lo <= x <= hi
    ensures lo <= Round2(x) <= hi
  {
    Round2Monotone(lo, x);
    Round2Monotone(x, hi);
    Round2OfCents(lo);
    Round2OfCents(hi);
  }
}
