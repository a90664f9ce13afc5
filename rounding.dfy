/** The offset formula of frst2d over exact reals: each component of the unit
    gradient, scaled by the radius and rounded as std::round does, stays
    within [-r, r]. This is what the bound in Projection.Valid stands for. */
module Rounding {
  import opened Votes

  /** std::round: the nearest integer, halfway cases rounded away from zero. */
  function Round(v: real): (k: int)
    ensures k as real - 0.5 <= v <= k as real + 0.5
    ensures v >= 0.0 ==> k >= 0
    ensures v <= 0.0 ==> k <= 0
    ensures v - k as real == 0.5 ==> v < 0.0
    ensures k as real - v == 0.5 ==> v > 0.0
  {
    if v >= 0.0 then (v + 0.5).Floor else -((0.5 - v).Floor)
  }

  /** Rounding is symmetric about zero. */
  lemma RoundOdd(v: real)
    ensures Round(-v) == -Round(v)
  {
  }

  /** Rounding a value of [-r, r], r an integer, gives an integer of [-r, r]. */
  lemma RoundWithin(v: real, r: nat)
    requires -(r as real) <= v <= r as real
    ensures -(r as int) <= Round(v) <= r
  {
  }

  lemma MulNonNegative(a: real, b: real)
    requires a >= 0.0 && b >= 0.0
    ensures a * b >= 0.0
  {
  }

  /** One component of the offset: round(g / n * r) for a gradient component g
      of a gradient whose norm is n. */
  function ScaledComponent(g: real, n: real, r: nat): int
    requires n > 0.0
  {
    Round(g / n * r as real)
  }

  /** A component bounded by the norm gives a component offset within [-r, r]. */
  lemma UnitScaledWithin(g: real, n: real, r: nat)
    requires n > 0.0 && -n <= g <= n
    ensures -(r as int) <= ScaledComponent(g, n, r) <= r
  {
    var q := g / n;
    assert q * n == g;
    assert -1.0 <= q <= 1.0;
    var rr := r as real;
    MulNonNegative(1.0 - q, rr);
    MulNonNegative(1.0 + q, rr);
    RoundWithin(q * rr, r);
  }

  /** The offset frst2d computes for a gradient (gx, gy) of norm n > 0:
      round(gx / n * r), round(gy / n * r). */
  function RoundedOffsetOf(gx: real, gy: real, n: real, r: nat): Offset
  {
    if n > 0.0 then Offset(ScaledComponent(gx, n, r), ScaledComponent(gy, n, r)) else Offset(0, 0)
  }

  /** The same offset as a function of the gradient alone, for a given norm. */
  function RoundedOffset(norm: (real, real) -> real, r: nat): (real, real) -> Offset
  {
    (gx, gy) => RoundedOffsetOf(gx, gy, norm(gx, gy), r)
  }

  lemma RoundedOffsetAt(norm: (real, real) -> real, r: nat, gx: real, gy: real)
    requires -norm(gx, gy) <= gx <= norm(gx, gy) && -norm(gx, gy) <= gy <= norm(gx, gy)
    ensures -(r as int) <= RoundedOffset(norm, r)(gx, gy).drow <= r
    ensures -(r as int) <= RoundedOffset(norm, r)(gx, gy).dcol <= r
  {
    var n := norm(gx, gy);
    assert RoundedOffset(norm, r)(gx, gy) == RoundedOffsetOf(gx, gy, n, r);
    if n > 0.0 {
      UnitScaledWithin(gx, n, r);
      UnitScaledWithin(gy, n, r);
    }
  }

  lemma MulPositive(a: real, b: real)
    requires a > 0.0 && b > 0.0
    ensures a * b > 0.0
  {
  }

  /** Squaring is strictly monotonic on non-negative values. */
  lemma SquareGrows(a: real, b: real)
    requires 0.0 <= a < b
    ensures a * a < b * b
  {
    MulPositive(b - a, b + a);
    assert b * b - a * a == (b - a) * (b + a);
  }

  /** What std::sqrt(gx * gx + gy * gy) returns over the reals, the non-negative
      n with n * n == gx * gx + gy * gy, bounds each gradient component. */
  lemma EuclideanNormBounds(n: real, gx: real, gy: real)
    requires n >= 0.0 && n * n == gx * gx + gy * gy
    ensures -n <= gx <= n && -n <= gy <= n
  {
    assert gx * gx >= 0.0 && gy * gy >= 0.0;
    assert gx * gx <= n * n && gy * gy <= n * n;
    assert (-gx) * (-gx) == gx * gx && (-gy) * (-gy) == gy * gy;
    if gx > n {
      SquareGrows(n, gx);
    }
    if -gx > n {
      SquareGrows(n, -gx);
    }
    if gy > n {
      SquareGrows(n, gy);
    }
    if -gy > n {
      SquareGrows(n, -gy);
    }
  }

  /** The same norm is positive exactly for a non-zero gradient. */
  lemma EuclideanNormPositive(n: real, gx: real, gy: real)
    requires n >= 0.0 && n * n == gx * gx + gy * gy
    ensures n > 0.0 <==> gx != 0.0 || gy != 0.0
  {
    assert gx * gx >= 0.0 && gy * gy >= 0.0;
    assert (-gx) * (-gx) == gx * gx && (-gy) * (-gy) == gy * gy;
    if n > 0.0 {
      SquareGrows(0.0, n);
    } else {
      if gx > 0.0 {
        SquareGrows(0.0, gx);
      }
      if gx < 0.0 {
        SquareGrows(0.0, -gx);
      }
      if gy > 0.0 {
        SquareGrows(0.0, gy);
      }
      if gy < 0.0 {
        SquareGrows(0.0, -gy);
      }
    }
  }

  /** At one gradient, the Euclidean norm and its rounded offset satisfy
      what the accumulation relies on. */
  lemma EuclideanProjectionAt(norm: (real, real) -> real, r: nat, gx: real, gy: real)
    requires norm(gx, gy) >= 0.0 && norm(gx, gy) * norm(gx, gy) == gx * gx + gy * gy
    ensures norm(gx, gy) > 0.0 <==> gx != 0.0 || gy != 0.0
    ensures -(r as int) <= RoundedOffset(norm, r)(gx, gy).drow <= r
    ensures -(r as int) <= RoundedOffset(norm, r)(gx, gy).dcol <= r
  {
    EuclideanNormPositive(norm(gx, gy), gx, gy);
    EuclideanNormBounds(norm(gx, gy), gx, gy);
    RoundedOffsetAt(norm, r, gx, gy);
  }

  /** The norm frst2d computes, the square root of gx * gx + gy * gy, together
      with the rounded offsets satisfies what the accumulation relies on. */
  lemma RoundedOffsetValid(norm: (real, real) -> real, r: nat)
    requires forall gx, gy :: norm(gx, gy) >= 0.0 && norm(gx, gy) * norm(gx, gy) == gx * gx + gy * gy
    ensures Projection(norm, RoundedOffset(norm, r)).Valid(r)
  {
    var offset := RoundedOffset(norm, r);
    forall gx, gy
      ensures norm(gx, gy) >= 0.0 && (norm(gx, gy) > 0.0 <==> gx != 0.0 || gy != 0.0)
      ensures -(r as int) <= offset(gx, gy).drow <= r && -(r as int) <= offset(gx, gy).dcol <= r
    {
      EuclideanProjectionAt(norm, r, gx, gy);
    }
  }
}
