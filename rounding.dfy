/** The rounding the script applies, on exact reals: Python's `round(x)` and
    numpy's `round()` (to the nearest integer, ties to even), `round(x, 1)`
    (to the nearest tenth, ties to even) and `int(x)` (towards zero). */
module Rounding {

  predicate IsEven(n: int) { n % 2 == 0 }

  /** `round(x)`: the nearest integer; an exact tie goes to the even neighbour. */
  function RoundHalfEven(x: real): (r: int)
    ensures -0.5 <= (r as real) - x <= 0.5
    ensures (r as real) - x == 0.5 || x - (r as real) == 0.5 ==> IsEven(r)
  {
    var f := x.Floor;
    var frac := x - (f as real);
    if frac < 0.5 then f
    else if frac > 0.5 then f + 1
    else if IsEven(f) then f
    else f + 1
  }

  /** The nearest-integer contract determines the result: any integer within
      one half of `x`, even on a tie, is `RoundHalfEven(x)`. */
  lemma RoundHalfEvenUnique(x: real, n: int)
    requires -0.5 <= (n as real) - x <= 0.5
    requires (n as real) - x == 0.5 || x - (n as real) == 0.5 ==> IsEven(n)
    ensures n == RoundHalfEven(x)
  {
  }

  /** `int(x)`: drops the fractional part, towards zero. */
  function Truncate(x: real): (r: int)
    ensures x >= 0.0 ==> 0 <= r && (r as real) <= x < (r as real) + 1.0
    ensures x < 0.0 ==> r <= 0 && (r as real) - 1.0 < x <= (r as real)
  {
    if x >= 0.0 then x.Floor else -((-x).Floor)
  }

  /** `round(x, 1)`: the nearest multiple of one tenth, ties to the even tenth. */
  function RoundTenth(x: real): (r: real)
    ensures -0.05 <= r - x <= 0.05
    ensures (r * 10.0).Floor as real == r * 10.0
    ensures r - x == 0.05 || x - r == 0.05 ==> IsEven((r * 10.0).Floor)
  {
    var n := RoundHalfEven(x * 10.0);
    var r := (n as real) / 10.0;
    assert r * 10.0 == n as real;
    assert (n as real).Floor == n;
    r
  }

  /** The nearest-tenth contract determines the result: any multiple of one
      tenth within 0.05 of `x`, with an even number of tenths on a tie, is
      `RoundTenth(x)`. */
  lemma RoundTenthUnique(x: real, t: real)
    requires -0.05 <= t - x <= 0.05
    requires (t * 10.0).Floor as real == t * 10.0
    requires t - x == 0.05 || x - t == 0.05 ==> IsEven((t * 10.0).Floor)
    ensures t == RoundTenth(x)
  {
    var n := (t * 10.0).Floor;
    assert (n as real) - x * 10.0 == (t - x) * 10.0;
    RoundHalfEvenUnique(x * 10.0, n);
  }

  /** Ties go to the even tenth: 0.25 rounds down to 0.2 and 0.35 up to 0.4. */
  lemma RoundTenthTies()
    ensures RoundTenth(0.25) == 0.2
    ensures RoundTenth(0.35) == 0.4
  {
    RoundTenthUnique(0.25, 0.2);
    RoundTenthUnique(0.35, 0.4);
  }
}
