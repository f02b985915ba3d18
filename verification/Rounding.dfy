/** Rounding of exact reals, as Python's `round` and `math.ceil` do it. */
module Rounding {

  /** `k` is an integer nearest to `x`, and the even one if two are. */
  predicate Nearest(x: real, k: int) {
    && -0.5 <= x - k as real <= 0.5
    && (x - k as real == 0.5 || x - k as real == -0.5 ==> k % 2 == 0)
  }

  lemma NearestOnce(x: real, j: int, k: int)
    requires Nearest(x, j) && Nearest(x, k)
    ensures j == k
  {
    assert -1.0 <= j as real - k as real <= 1.0;
  }

  /** Nearest integer, ties to the even one. */
  function RoundHalfEven(x: real): (r: int)
    ensures Nearest(x, r)
  {
    var below := x.Floor;
    var rest := x - below as real;
    if rest < 0.5 || (rest == 0.5 && below % 2 == 0) then below else below + 1
  }

  lemma RoundMonotone(x: real, y: real)
    requires x <= y
    ensures RoundHalfEven(x) <= RoundHalfEven(y)
  {
    assert x.Floor <= y.Floor;
  }

  /** `y` is `x` to as many decimal places as `scale` has noughts. */
  predicate RoundedTo(x: real, scale: int, y: real) {
    var k := (y * scale as real).Floor;
    y * scale as real == k as real && Nearest(x * scale as real, k)
  }

  lemma RoundedOnce(x: real, scale: int, y: real, z: real)
    requires scale > 0 && RoundedTo(x, scale, y) && RoundedTo(x, scale, z)
    ensures y == z
  {
    NearestOnce(x * scale as real, (y * scale as real).Floor, (z * scale as real).Floor);
    assert (y - z) * scale as real == 0.0;
  }

  /** `round(x, 3)`, `round(x, 5)` and `round(x, 6)` over exact reals. */
  function Round3(x: real): (y: real)
    ensures RoundedTo(x, 1000, y)
  {
    var k := RoundHalfEven(x * 1000.0);
    assert k as real / 1000.0 * 1000.0 == k as real;
    k as real / 1000.0
  }

  function Round5(x: real): (y: real)
    ensures RoundedTo(x, 100_000, y)
  {
    var k := RoundHalfEven(x * 100000.0);
    assert k as real / 100000.0 * 100000.0 == k as real;
    k as real / 100000.0
  }

  function Round6(x: real): (y: real)
    ensures RoundedTo(x, 1_000_000, y)
  {
    var k := RoundHalfEven(x * 1000000.0);
    assert k as real / 1000000.0 * 1000000.0 == k as real;
    k as real / 1000000.0
  }

  lemma RoundsMonotone(x: real, y: real)
    requires x <= y
    ensures Round3(x) <= Round3(y) && Round5(x) <= Round5(y) && Round6(x) <= Round6(y)
  {
    hide RoundHalfEven, Nearest;
    RoundMonotone(x * 1000.0, y * 1000.0);
    RoundMonotone(x * 100000.0, y * 100000.0);
    RoundMonotone(x * 1000000.0, y * 1000000.0);
  }

  /** Least integer at or above `x`. */
  function Ceil(x: real): (c: int)
    ensures x <= c as real < x + 1.0
  {
    -((-x).Floor)
  }
}
