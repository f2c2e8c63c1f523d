/**
  Python's numeric conversions that the colour pipeline relies on, stated on
  exact reals, and the exception kinds the pipeline can raise.
 */
module Numbers {

  /** The exceptions the core can raise: `ZeroDivisionError` from a 0/0
      progress ratio and `ValueError` ("math domain error") from `math.log`
      of a non-positive temperature. */
  datatype Error = ZeroDivision | MathDomain

  datatype Result<T> = Ok(value: T) | Err(error: Error)

  /** Python's `int()` on a float: truncation toward zero. */
  function Trunc(x: real): (r: int)
    ensures 0.0 <= x ==> 0 <= r && r as real <= x < r as real + 1.0
    ensures x < 0.0 ==> r <= 0 && r as real - 1.0 < x <= r as real
  {
    if 0.0 <= x then x.Floor else -((-x).Floor)
  }

  /** Python's one-argument `round()`: the nearest integer, ties to the even one. */
  function RoundHalfEven(x: real): (r: int)
    ensures r as real - 0.5 <= x <= r as real + 0.5
    ensures x == r as real - 0.5 || x == r as real + 0.5 ==> r % 2 == 0
  {
    var f := x.Floor;
    var frac := x - f as real;
    if frac < 0.5 then f
    else if frac > 0.5 then f + 1
    else if f % 2 == 0 then f
    else f + 1
  }

  /** The two contract clauses of `RoundHalfEven` pin its result down: no other
      integer is as close to `x` with the tie broken toward even. */
  lemma RoundHalfEvenIsUnique(x: real, n: int)
    requires n as real - 0.5 <= x <= n as real + 0.5
    requires x == n as real - 0.5 || x == n as real + 0.5 ==> n % 2 == 0
    ensures RoundHalfEven(x) == n
  {
  }

  /** A percentage in [0, 100] rounds to an integer percentage in [0, 100]. */
  lemma RoundedPercentInRange(x: real)
    requires 0.0 <= x <= 100.0
    ensures 0 <= RoundHalfEven(x) <= 100
  {
  }

  /** Python's `min(max(x, 0), 255)`. */
  function Clamp(x: real): (r: real)
    ensures 0.0 <= r <= 255.0
    ensures 0.0 <= x <= 255.0 ==> r == x
    ensures x < 0.0 ==> r == 0.0
    ensures 255.0 < x ==> r == 255.0
  {
    if x < 0.0 then 0.0 else if 255.0 < x then 255.0 else x
  }
}
