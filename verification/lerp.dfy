/** Two-point linear interpolation (`x_lerp`) and the segment quantities the
    graph computes from pairs of points: trapezoid area and slope. */
module Interpolation {
  import opened Vectors

  /** `p` lies on the (non-vertical) line through `a` and `b`, stated without division. */
  predicate OnLine(a: Vec3, b: Vec3, p: Vec3)
  {
    (p.y - a.y) * (b.x - a.x) == (b.y - a.y) * (p.x - a.x)
  }

  /** `x_lerp(x, v1, v2)`: the point of the line through `v1` and `v2` whose
      x-coordinate is `x`, with `z` reset to 0. Outside `[v1.x, v2.x]` it extrapolates. */
  function XLerp(x: real, v1: Vec3, v2: Vec3): (r: Vec3)
    requires v1.x != v2.x
    ensures r.x == x && r.z == 0.0
    ensures x == v1.x ==> r.y == v1.y
    ensures x == v2.x ==> r.y == v2.y
    ensures OnLine(v1, v2, r)
  {
    var d := v2.x - v1.x;
    var y := (v1.y * (v2.x - x) + v2.y * (x - v1.x)) / d;
    assert y * d == v1.y * (v2.x - x) + v2.y * (x - v1.x);
    assert (y - v1.y) * d == (v2.y - v1.y) * (x - v1.x);
    Vec3(x, y, 0.0)
  }

  /** Signed area of the trapezoid under the segment from `a` to `b`. */
  function Trapezoid(a: Vec3, b: Vec3): real
  {
    (a.y + b.y) * (b.x - a.x) / 2.0
  }

  /** Slope of the segment from `a` to `b`. */
  function Slope(a: Vec3, b: Vec3): real
    requires a.x != b.x
  {
    (b.y - a.y) / (b.x - a.x)
  }

  /** `y == m*x + k` at the point `p`. */
  predicate OnLinearFunction(p: Vec3, m: real, k: real)
  {
    p.y == m * p.x + k
  }

  /** Interpolation is the only point of the line at a given x: a point at `x`
      lies on the line through `v1` and `v2` exactly when it has the interpolated height. */
  lemma LerpIsOnlyPointOnLine(x: real, v1: Vec3, v2: Vec3, p: Vec3)
    requires v1.x != v2.x && p.x == x
    ensures OnLine(v1, v2, p) <==> p.y == XLerp(x, v1, v2).y
  {
    var r := XLerp(x, v1, v2);
    var d := v2.x - v1.x;
    if OnLine(v1, v2, p) {
      assert (p.y - r.y) * d == 0.0;
    }
  }

  /** Interpolating between two samples of `y = m*x + k` reproduces the function anywhere. */
  lemma LerpOfLinear(x: real, v1: Vec3, v2: Vec3, m: real, k: real)
    requires v1.x != v2.x
    requires OnLinearFunction(v1, m, k) && OnLinearFunction(v2, m, k)
    ensures XLerp(x, v1, v2).y == m * x + k
  {
    var d := v2.x - v1.x;
    var y := XLerp(x, v1, v2).y;
    assert y * d == v1.y * (v2.x - x) + v2.y * (x - v1.x);
    assert (m * x + k) * d == v1.y * (v2.x - x) + v2.y * (x - v1.x);
  }

  /** The slope between two samples of `y = m*x + k` is `m`. */
  lemma SlopeOfLinear(v1: Vec3, v2: Vec3, m: real, k: real)
    requires v1.x != v2.x
    requires OnLinearFunction(v1, m, k) && OnLinearFunction(v2, m, k)
    ensures Slope(v1, v2) == m
  {
    assert v2.y - v1.y == m * (v2.x - v1.x);
  }

  /** Height of the line through `a` and `c` written as `alpha + beta * t`. */
  lemma LerpAffine(a: Vec3, c: Vec3, t: real)
    requires a.x != c.x
    ensures var beta := (c.y - a.y) / (c.x - a.x);
            XLerp(t, a, c).y == (a.y - beta * a.x) + beta * t
  {
    var beta := (c.y - a.y) / (c.x - a.x);
    var y := XLerp(t, a, c).y;
    assert beta * (c.x - a.x) == c.y - a.y;
    assert (y - a.y) * (c.x - a.x) == (c.y - a.y) * (t - a.x);
    assert (y - a.y) * (c.x - a.x) == beta * (t - a.x) * (c.x - a.x);
  }

  /** The trapezoid under a stretch of one line is the difference of a quadratic
      primitive at its two ends. */
  lemma TrapezoidAsPrimitive(alpha: real, beta: real, s: real, t: real, ys: real, yt: real)
    requires ys == alpha + beta * s && yt == alpha + beta * t
    ensures Trapezoid(Vec3(s, ys, 0.0), Vec3(t, yt, 0.0))
         == (alpha * t + beta * t * t / 2.0) - (alpha * s + beta * s * s / 2.0)
  {
    assert (ys + yt) * (t - s) == 2.0 * alpha * (t - s) + beta * (t * t - s * s);
  }

  /** Trapezoids along one line add up: the area from `s` to `t` plus the area
      from `t` to `u` is the area from `s` to `u`, whatever the order of `s`, `t`, `u`. */
  lemma TrapezoidsAlongLineAdd(a: Vec3, c: Vec3, s: real, t: real, u: real)
    requires a.x != c.x
    ensures Trapezoid(XLerp(s, a, c), XLerp(t, a, c)) + Trapezoid(XLerp(t, a, c), XLerp(u, a, c))
         == Trapezoid(XLerp(s, a, c), XLerp(u, a, c))
  {
    var beta := (c.y - a.y) / (c.x - a.x);
    var alpha := a.y - beta * a.x;
    LerpAffine(a, c, s);
    LerpAffine(a, c, t);
    LerpAffine(a, c, u);
    TrapezoidAsPrimitive(alpha, beta, s, t, XLerp(s, a, c).y, XLerp(t, a, c).y);
    TrapezoidAsPrimitive(alpha, beta, t, u, XLerp(t, a, c).y, XLerp(u, a, c).y);
    TrapezoidAsPrimitive(alpha, beta, s, u, XLerp(s, a, c).y, XLerp(u, a, c).y);
  }

  /** Cutting the segment from `a` to `c` at `x`: the area from `a` to the cut plus
      the area from the cut to `c` is the whole trapezoid. */
  lemma TrapezoidSplitAt(a: Vec3, c: Vec3, x: real)
    requires a.x != c.x
    ensures Trapezoid(a, XLerp(x, a, c)) + Trapezoid(XLerp(x, a, c), c) == Trapezoid(a, c)
  {
    TrapezoidsAlongLineAdd(a, c, a.x, x, c.x);
  }
}
