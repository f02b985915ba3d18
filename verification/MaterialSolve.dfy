/** Solving a material's tint and alpha from its colour over black and over
    white (scripts/measure-reference.py:121-136), over exact numbers. */
module MaterialSolve {
  import opened Bytes
  import opened Rounding

  function AlphaOf(black: real, white: real): real {
    1.0 - (white - black) / 255.0
  }

  /** The tint of one channel, zero for an all but transparent one. */
  function TintOf(black: real, white: real): real {
    var alpha := AlphaOf(black, white);
    if alpha > 0.02 then black / alpha else 0.0
  }

  /** What is printed for a channel. */
  function Shown(tint: real): (shown: int)
    ensures tint <= 255.0 ==> Nearest(tint, shown)
    ensures tint >= 255.0 ==> shown == 255
  {
    var t := RoundHalfEven(tint);
    if t < 255 then t else 255
  }

  /** The `solve` branch for one point: three channels, mean alpha. */
  method Solve(black: seq<byte>, white: seq<byte>) returns (tint: seq<int>, alpha: real)
    requires |black| == 3 && |white| == 3
    ensures |tint| == 3
    ensures forall i :: 0 <= i < 3 ==> tint[i] == Shown(TintOf(black[i] as real, white[i] as real))
    ensures alpha == (AlphaOf(black[0] as real, white[0] as real) + AlphaOf(black[1] as real, white[1] as real)
                      + AlphaOf(black[2] as real, white[2] as real)) / 3.0
  {
    var alphas: seq<real>, tints: seq<real> := [], [];
    for i := 0 to 3
      invariant |alphas| == |tints| == i
      invariant forall k :: 0 <= k < i ==> alphas[k] == AlphaOf(black[k] as real, white[k] as real)
      invariant forall k :: 0 <= k < i ==> tints[k] == TintOf(black[k] as real, white[k] as real)
    {
      var a := 1.0 - (white[i] as real - black[i] as real) / 255.0;
      alphas := alphas + [a];
      tints := tints + [if a > 0.02 then black[i] as real / a else 0.0];
    }
    alpha := (alphas[0] + alphas[1] + alphas[2]) / 3.0;
    tint := [Shown(tints[0]), Shown(tints[1]), Shown(tints[2])];
  }

  /** A material of tint `t` and opacity `a` over a background. */
  function Over(t: real, a: real, background: real): real {
    t * a + background * (1.0 - a)
  }

  function AbsReal(x: real): (y: real)
    ensures y >= 0.0 && (y == x || y == -x)
  {
    if x < 0.0 then -x else x
  }

  /** Without rounding the solution is exact. */
  lemma ExactWithoutRounding(t: real, a: real)
    requires 0.0 <= t <= 255.0 && 0.0 <= a <= 1.0
    ensures AlphaOf(Over(t, a, 0.0), Over(t, a, 255.0)) == a
    ensures a > 0.02 ==> TintOf(Over(t, a, 0.0), Over(t, a, 255.0)) == t
  {
    var black, white := Over(t, a, 0.0), Over(t, a, 255.0);
    assert white - black == 255.0 * (1.0 - a);
    if a > 0.02 {
      Quotient(t * a, a, t);
    }
  }

  lemma Quotient(x: real, y: real, q: real)
    requires y > 0.0 && x == q * y
    ensures x / y == q
  {
    var r := x / y;
    assert r * y == x;
    assert (r - q) * y == 0.0;
  }

  /** With colours rounded to bytes the channel alpha is within 1/255 of the
      true one, and the unclamped tint within 3/2 over the solved alpha. */
  lemma RoundedSolution(t: real, a: real)
    requires 0.0 <= t <= 255.0 && 0.0 <= a <= 1.0
    ensures var black, white := RoundHalfEven(Over(t, a, 0.0)) as real, RoundHalfEven(Over(t, a, 255.0)) as real;
            var alpha := AlphaOf(black, white);
            && 0.0 <= black <= 255.0 && 0.0 <= white <= 255.0
            && AbsReal(alpha - a) <= 1.0 / 255.0
            && (alpha > 0.02 ==> AbsReal(TintOf(black, white) - t) <= 1.5 / alpha)
  {
    OverInRange(t, a);
    hide RoundHalfEven;
    var x, y := Over(t, a, 0.0), Over(t, a, 255.0);
    var black, white := RoundHalfEven(x) as real, RoundHalfEven(y) as real;
    var alpha := AlphaOf(black, white);
    assert y - x == 255.0 * (1.0 - a);
    var d := alpha - a;
    assert -1.0 <= 255.0 * d <= 1.0;
    if alpha > 0.02 {
      TintError(t, a, black, alpha);
    }
  }

  lemma OverInRange(t: real, a: real)
    requires 0.0 <= t <= 255.0 && 0.0 <= a <= 1.0
    ensures 0.0 <= Over(t, a, 0.0) <= 255.0 && 0.0 <= Over(t, a, 255.0) <= 255.0
    ensures 0 <= RoundHalfEven(Over(t, a, 0.0)) <= 255 && 0 <= RoundHalfEven(Over(t, a, 255.0)) <= 255
  {
    assert 0.0 <= t * a <= 255.0 * a;
    assert Over(t, a, 255.0) == t * a + 255.0 - 255.0 * a;
  }

  lemma TintError(t: real, a: real, black: real, alpha: real)
    requires 0.0 <= t <= 255.0 && alpha > 0.0
    requires -0.5 <= black - t * a <= 0.5 && -1.0 <= 255.0 * (alpha - a) <= 1.0
    ensures AbsReal(black / alpha - t) <= 1.5 / alpha
  {
    var d, q := alpha - a, black / alpha;
    assert q * alpha == black;
    assert -1.0 <= t * d <= 1.0 by {
      Scale(t, d);
    }
    assert (q - t) * alpha == (black - t * a) - t * d;
    Divided(q - t, alpha, 1.5);
  }

  lemma Scale(t: real, d: real)
    requires 0.0 <= t <= 255.0 && -1.0 <= 255.0 * d <= 1.0
    ensures -1.0 <= t * d <= 1.0
  {
    if d >= 0.0 {
      assert t * d <= 255.0 * d;
    } else {
      assert t * (-d) <= 255.0 * (-d);
    }
  }

  lemma Divided(x: real, y: real, bound: real)
    requires y > 0.0 && -bound <= x * y <= bound
    ensures AbsReal(x) <= bound / y
  {
    var r := bound / y;
    assert r * y == bound;
    if x > r {
      assert (x - r) * y > 0.0;
    }
    if x < -r {
      assert (-r - x) * y > 0.0;
    }
  }

  /** So is the printed tint, up to its own rounding; clamping at 255 only helps. */
  lemma ShownTint(t: real, a: real)
    requires 0.0 <= t <= 255.0 && 0.0 <= a <= 1.0
    ensures var black, white := RoundHalfEven(Over(t, a, 0.0)) as real, RoundHalfEven(Over(t, a, 255.0)) as real;
            var alpha := AlphaOf(black, white);
            alpha > 0.02 ==> AbsReal(Shown(TintOf(black, white)) as real - t) <= 1.5 / alpha + 0.5
  {
    RoundedSolution(t, a);
  }
}
