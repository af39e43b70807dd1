/** `graph::integral`: bracket both bounds with two linear scans, interpolate the
    bounds onto their segments, then add trapezoids (a composite trapezoidal rule
    whose interior is walked from both ends at once). */
module Integrals {
  import opened Vectors
  import opened Interpolation
  import opened Graphs

  datatype Option<T> = None | Some(value: T)

  /** The first bound loop as a function: `i` steps right while the next sample
      lies at or left of `x1` and `i` is still below `j`. The guard reads
      `points[i+1]` before it compares `i` with `j`, so the result is `None` when
      that read falls outside the points. */
  function LowerScan(pts: seq<Vec3>, x1: real, i: nat, j: int): (r: Option<nat>)
    ensures r.Some? ==> i <= r.value && r.value + 1 < |pts|
    decreases |pts| - i
  {
    if i + 1 >= |pts| then None
    else if pts[i + 1].x <= x1 && j > i then LowerScan(pts, x1, i + 1, j)
    else Some(i)
  }

  /** The second bound loop as a function: `j` steps left while the previous
      sample lies at or right of `x2` and `j` is still above `i`. The result is
      `None` when the guard reads `points[j-1]` outside the points. */
  function UpperScan(pts: seq<Vec3>, x2: real, i: int, j: int): (r: Option<int>)
    ensures r.Some? ==> 1 <= r.value <= j && r.value <= |pts|
    decreases j
  {
    if j - 1 < 0 || j - 1 >= |pts| then None
    else if pts[j - 1].x >= x2 && i < j then UpperScan(pts, x2, i, j - 1)
    else Some(j)
  }

  /** When the first bound loop stays in range, it stops exactly where its guard
      first fails (the next sample lies right of `x1`, or `i` has caught up with
      `j`), and every sample it stepped onto lay at or left of `x1`. */
  lemma {:induction false} LowerScanExit(pts: seq<Vec3>, x1: real, i: nat, j: int)
    requires LowerScan(pts, x1, i, j).Some?
    ensures var s := LowerScan(pts, x1, i, j).value;
            !(pts[s + 1].x <= x1 && j > s)
    ensures var s := LowerScan(pts, x1, i, j).value;
            (s == i || s <= j) && forall m :: i < m <= s ==> pts[m].x <= x1
    decreases |pts| - i
  {
    if i + 1 < |pts| && pts[i + 1].x <= x1 && j > i {
      LowerScanExit(pts, x1, i + 1, j);
    }
  }

  /** When the second bound loop stays in range, it stops exactly where its guard
      first fails (the previous sample lies left of `x2`, or `j` has come down to
      `i`), and every sample it stepped past lay at or right of `x2`. */
  lemma {:induction false} UpperScanExit(pts: seq<Vec3>, x2: real, i: int, j: int)
    requires UpperScan(pts, x2, i, j).Some?
    ensures var s := UpperScan(pts, x2, i, j).value;
            !(pts[s - 1].x >= x2 && i < s)
    ensures var s := UpperScan(pts, x2, i, j).value;
            (s == j || i <= s) && forall m :: s <= m < j ==> pts[m].x >= x2
    decreases j
  {
    if 0 <= j - 1 < |pts| && pts[j - 1].x >= x2 && i < j {
      UpperScanExit(pts, x2, i, j - 1);
    }
  }

  lemma {:induction false} LowerScanFrom(pts: seq<Vec3>, x1: real, i: nat)
    requires NonDecreasing(pts)
    ensures LowerScan(pts, x1, i, |pts| - 1).Some? <==> (i + 1 < |pts| && x1 < pts[|pts| - 1].x)
    ensures LowerScan(pts, x1, i, |pts| - 1).Some? ==>
              var s := LowerScan(pts, x1, i, |pts| - 1).value;
              i <= s && s + 1 < |pts| && (s == i || pts[s].x <= x1) && pts[s + 1].x > x1
    decreases |pts| - i
  {
    if i + 1 < |pts| {
      if pts[i + 1].x <= x1 {
        LowerScanFrom(pts, x1, i + 1);
      } else {
        assert pts[i + 1].x <= pts[|pts| - 1].x;
      }
    }
  }

  /** The lower-bound scan stays inside the points exactly when `x1` lies left of
      the last sample, and it then stops on the segment `SegmentAt` picks. Past the
      last sample the loop reads `points[n]`: integrating there is not "0". */
  lemma LowerScanDefinedIff(pts: seq<Vec3>, x1: real)
    requires NonDecreasing(pts)
    ensures LowerScan(pts, x1, 0, |pts| - 1).Some? <==> (|pts| >= 2 && x1 < pts[|pts| - 1].x)
    ensures LowerScan(pts, x1, 0, |pts| - 1).Some? ==>
              LowerScan(pts, x1, 0, |pts| - 1).value == SegmentAt(pts, x1)
  {
    LowerScanFrom(pts, x1, 0);
    var r := LowerScan(pts, x1, 0, |pts| - 1);
    if r.Some? {
      BracketsIffLastLeft(pts, x1, false, r.value);
    }
  }

  lemma {:induction false} UpperScanFrom(pts: seq<Vec3>, x2: real, i: nat, j: nat)
    requires NonDecreasing(pts) && i < j < |pts|
    requires i == 0 || pts[i].x < x2
    requires j == |pts| - 1 || pts[j].x >= x2
    ensures UpperScan(pts, x2, i, j).Some? <==> (i > 0 || pts[0].x < x2)
    ensures UpperScan(pts, x2, i, j).Some? ==>
              var t := UpperScan(pts, x2, i, j).value;
              i < t <= j && pts[t - 1].x < x2 && (t == |pts| - 1 || pts[t].x >= x2)
    decreases j
  {
    if pts[j - 1].x >= x2 {
      if j - 1 > i {
        UpperScanFrom(pts, x2, i, j - 1);
      } else {
        assert UpperScan(pts, x2, i, j) == UpperScan(pts, x2, i, i);
      }
    } else {
      assert pts[0].x <= pts[j - 1].x;
    }
  }

  /** Given the lower bound's segment `i`, the upper-bound scan stays inside the
      points exactly when `i > 0` or `x2` lies right of the first sample, and it then
      stops just right of `i`, on the segment `SegmentBefore` picks. Otherwise the
      loop reads `points[-1]`. */
  lemma UpperScanDefinedIff(pts: seq<Vec3>, x2: real, i: nat)
    requires |pts| >= 2 && NonDecreasing(pts) && i + 2 <= |pts|
    requires i == 0 || pts[i].x < x2
    ensures UpperScan(pts, x2, i, |pts| - 1).Some? <==> (i > 0 || pts[0].x < x2)
    ensures UpperScan(pts, x2, i, |pts| - 1).Some? ==>
              var t := UpperScan(pts, x2, i, |pts| - 1).value;
              i < t && t - 1 == SegmentBefore(pts, x2)
  {
    UpperScanFrom(pts, x2, i, |pts| - 1);
    var r := UpperScan(pts, x2, i, |pts| - 1);
    if r.Some? {
      BracketsIffLastLeft(pts, x2, true, r.value - 1);
    }
  }

  /** The queries this model covers: at least two x-increasing samples, `x1 < x2`,
      `x1` left of the last sample and `x2` right of the first. The last two
      conditions are what keeps the bound loops' reads in range on sorted samples
      (`BoundScansDefinedIff`). Strict order and `x1 < x2` are choices of the
      model: the code is also well-defined on some non-decreasing samples and on
      some queries with `x1 >= x2`, and those cases are not modelled. */
  predicate IntegralQuery(pts: seq<Vec3>, x1: real, x2: real)
  {
    |pts| >= 2 && Increasing(pts) && x1 < x2 && x1 < pts[|pts| - 1].x && pts[0].x < x2
  }

  /** For x-sorted samples and `x1 < x2`, both bound scans stay in range exactly
      under the bound conditions of `IntegralQuery`. */
  lemma BoundScansDefinedIff(pts: seq<Vec3>, x1: real, x2: real)
    requires NonDecreasing(pts) && x1 < x2
    ensures (&& LowerScan(pts, x1, 0, |pts| - 1).Some?
             && UpperScan(pts, x2, LowerScan(pts, x1, 0, |pts| - 1).value, |pts| - 1).Some?)
        <==> (|pts| >= 2 && x1 < pts[|pts| - 1].x && pts[0].x < x2)
  {
    LowerScanDefinedIff(pts, x1);
    var l := LowerScan(pts, x1, 0, |pts| - 1);
    if l.Some? {
      UpperScanDefinedIff(pts, x2, l.value);
      if l.value > 0 {
        assert pts[0].x <= pts[l.value].x;
      }
    }
  }

  lemma {:induction false} UpperScanDescends(pts: seq<Vec3>, k: nat, j: nat)
    requires Increasing(pts) && 0 < k < j < |pts|
    ensures UpperScan(pts, pts[k].x, k, j) == Some(k)
    decreases j
  {
    assert pts[k].x <= pts[j - 1].x;
    if j - 1 > k {
      UpperScanStep(pts, k, j);
      UpperScanDescends(pts, k, j - 1);
    } else {
      assert pts[k - 1].x < pts[k].x;
    }
  }

  lemma UpperScanStep(pts: seq<Vec3>, k: nat, j: nat)
    requires Increasing(pts) && 0 < k < j - 1 && j < |pts|
    ensures UpperScan(pts, pts[k].x, k, j) == UpperScan(pts, pts[k].x, k, j - 1)
  {
    assert pts[k].x < pts[j - 1].x;
  }

  /** The degenerate query `x1 == x2` at an interior sample: the lower scan stops
      at that sample and the upper scan walks `j` down onto it, so `j == i` and the
      single-segment case is skipped. `IntegralQuery` excludes it by `x1 < x2`. */
  lemma BoundsCollapseAtSample(pts: seq<Vec3>, k: nat)
    requires Increasing(pts) && 0 < k && k + 1 < |pts|
    ensures LowerScan(pts, pts[k].x, 0, |pts| - 1) == Some(k)
    ensures UpperScan(pts, pts[k].x, k, |pts| - 1) == Some(k)
  {
    IncreasingIsNonDecreasing(pts);
    var x := pts[k].x;
    assert pts[k].x < pts[|pts| - 1].x;
    LowerScanDefinedIff(pts, x);
    SegmentAtSample(pts, k);
    UpperScanDescends(pts, k, |pts| - 1);
  }

  lemma BoundsOrdered(pts: seq<Vec3>, x1: real, x2: real)
    requires IntegralQuery(pts, x1, x2)
    ensures SegmentAt(pts, x1) <= SegmentBefore(pts, x2)
  {
    var sa := SegmentAt(pts, x1);
    if sa > 0 {
      assert LeftOf(pts[sa], x2, true);
    }
  }

  /** The value `integral(x1, x2)` computes, written left to right: one trapezoid
      between the interpolated bounds when both lie on one segment, otherwise the
      partial trapezoid from `x1` to the next sample, the full trapezoids in between,
      and the partial trapezoid from the last sample before `x2` to `x2`. */
  function IntegralSum(pts: seq<Vec3>, x1: real, x2: real): real
    requires IntegralQuery(pts, x1, x2)
  {
    BoundsOrdered(pts, x1, x2);
    SumBetween(pts, x1, x2, SegmentAt(pts, x1), SegmentBefore(pts, x2) + 1)
  }

  /** The trapezoid sum for bounds `x1` read on segment `i` and `x2` read on segment `j - 1`. */
  function SumBetween(pts: seq<Vec3>, x1: real, x2: real, i: nat, j: nat): real
    requires Increasing(pts) && i < j < |pts|
  {
    var v1 := XLerp(x1, pts[i], pts[i + 1]);
    var v2 := XLerp(x2, pts[j - 1], pts[j]);
    if j - i == 1 then Trapezoid(v1, v2)
    else Trapezoid(v1, pts[i + 1]) + SegSum(pts, i + 1, j - 1) + Trapezoid(pts[j - 1], v2)
  }

  /** Both bounds on segment `i`: the area between them is one trapezoid. */
  lemma AreaWithinSegment(pts: seq<Vec3>, i: nat, x1: real, x2: real)
    requires Increasing(pts) && i + 1 < |pts|
    ensures AreaThrough(pts, i, x2) - AreaThrough(pts, i, x1)
         == Trapezoid(XLerp(x1, pts[i], pts[i + 1]), XLerp(x2, pts[i], pts[i + 1]))
  {
    assert pts[i].x < pts[i + 1].x;
    TrapezoidsAlongLineAdd(pts[i], pts[i + 1], pts[i].x, x1, x2);
  }

  /** Bounds on segments `i < k`: the area between them is the partial trapezoid
      up to `pts[i+1]`, the full ones up to `pts[k]`, and the partial one after it. */
  lemma AreaAcrossSegments(pts: seq<Vec3>, i: nat, k: nat, x1: real, x2: real)
    requires Increasing(pts) && i < k && k + 1 < |pts|
    ensures AreaThrough(pts, k, x2) - AreaThrough(pts, i, x1)
         == Trapezoid(XLerp(x1, pts[i], pts[i + 1]), pts[i + 1]) + SegSum(pts, i + 1, k)
            + Trapezoid(pts[k], XLerp(x2, pts[k], pts[k + 1]))
  {
    assert pts[i].x < pts[i + 1].x;
    SegSumSplit(pts, 0, i, k);
    TrapezoidSplitAt(pts[i], pts[i + 1], x1);
  }

  /** The trapezoid sum is the exact signed area under the piecewise-linear graph
      between the two bounds. */
  lemma IntegralIsArea(pts: seq<Vec3>, x1: real, x2: real)
    requires IntegralQuery(pts, x1, x2)
    ensures IntegralSum(pts, x1, x2) == Antiderivative(pts, x2) - Antiderivative(pts, x1)
  {
    BoundsOrdered(pts, x1, x2);
    AntiderivativeBefore(pts, x2);
    var i := SegmentAt(pts, x1);
    var k := SegmentBefore(pts, x2);
    if k == i {
      AreaWithinSegment(pts, i, x1, x2);
    } else {
      AreaAcrossSegments(pts, i, k, x1, x2);
    }
  }

  /** Integrals over adjacent ranges add up. */
  lemma IntegralAdditive(pts: seq<Vec3>, a: real, b: real, c: real)
    requires IntegralQuery(pts, a, b) && IntegralQuery(pts, b, c)
    ensures IntegralQuery(pts, a, c)
    ensures IntegralSum(pts, a, b) + IntegralSum(pts, b, c) == IntegralSum(pts, a, c)
  {
    IntegralIsArea(pts, a, b);
    IntegralIsArea(pts, b, c);
    IntegralIsArea(pts, a, c);
  }

  /** Between two samples the integral is the plain left-to-right sum of the full
      trapezoids between them. */
  lemma IntegralBetweenSamples(pts: seq<Vec3>, a: nat, b: nat)
    requires |pts| >= 2 && Increasing(pts) && a < b < |pts|
    ensures IntegralQuery(pts, pts[a].x, pts[b].x)
    ensures IntegralSum(pts, pts[a].x, pts[b].x) == SegSum(pts, a, b)
  {
    assert pts[a].x <= pts[|pts| - 1].x && pts[a].x < pts[b].x;
    assert pts[0].x <= pts[a].x;
    IntegralIsArea(pts, pts[a].x, pts[b].x);
    AntiderivativeAtSample(pts, a);
    AntiderivativeAtSample(pts, b);
    SegSumSplit(pts, 0, a, b);
  }

  /** The samples `(0,0)`, `(1,1)`, `(2,4)` integrated from 0 to 2 give 0.5 + 2.5 = 3.
      The bounds are parameters pinned by the precondition: with literal arguments
      the solver unrolls `LastLeft` far enough to run out of resource. */
  lemma IntegralExample(x1: real, x2: real)
    requires x1 == 0.0 && x2 == 2.0
    ensures IntegralQuery(ParabolaSamples, x1, x2)
    ensures IntegralSum(ParabolaSamples, x1, x2) == 3.0
  {
    var pts := ParabolaSamples;
    IntegralBetweenSamples(pts, 0, 2);
    assert SegSum(pts, 2, 2) == 0.0;
    assert SegSum(pts, 1, 2) == 2.5;
    assert SegSum(pts, 0, 2) == 3.0;
  }

  /** `m * x*x / 2 + k * x`, an antiderivative of `m * x + k`. */
  function LinePrimitive(m: real, k: real, x: real): real
  {
    m * x * x / 2.0 + k * x
  }

  lemma TrapezoidOfLinear(a: Vec3, b: Vec3, m: real, k: real)
    requires OnLinearFunction(a, m, k) && OnLinearFunction(b, m, k)
    ensures Trapezoid(a, b) == LinePrimitive(m, k, b.x) - LinePrimitive(m, k, a.x)
  {
    assert Trapezoid(a, b) == Trapezoid(Vec3(a.x, a.y, 0.0), Vec3(b.x, b.y, 0.0));
    TrapezoidAsPrimitive(k, m, a.x, b.x, a.y, b.y);
  }

  lemma {:induction false} SegSumOfLinear(pts: seq<Vec3>, m: real, k: real, hi: nat)
    requires hi < |pts|
    requires forall n :: 0 <= n < |pts| ==> OnLinearFunction(pts[n], m, k)
    ensures SegSum(pts, 0, hi) == LinePrimitive(m, k, pts[hi].x) - LinePrimitive(m, k, pts[0].x)
    decreases hi
  {
    if hi > 0 {
      SegSumOfLinear(pts, m, k, hi - 1);
      SegSumSnoc(pts, 0, hi - 1);
      TrapezoidOfLinear(pts[hi - 1], pts[hi], m, k);
    }
  }

  lemma AreaThroughOfLinear(pts: seq<Vec3>, m: real, k: real, s: nat, x: real)
    requires Increasing(pts) && s + 1 < |pts|
    requires forall n :: 0 <= n < |pts| ==> OnLinearFunction(pts[n], m, k)
    ensures AreaThrough(pts, s, x) == LinePrimitive(m, k, x) - LinePrimitive(m, k, pts[0].x)
  {
    assert pts[s].x < pts[s + 1].x;
    SegSumOfLinear(pts, m, k, s);
    LerpOfLinear(x, pts[s], pts[s + 1], m, k);
    TrapezoidOfLinear(pts[s], XLerp(x, pts[s], pts[s + 1]), m, k);
  }

  lemma AntiderivativeOfLinear(pts: seq<Vec3>, m: real, k: real, x: real)
    requires |pts| >= 2 && Increasing(pts)
    requires forall n :: 0 <= n < |pts| ==> OnLinearFunction(pts[n], m, k)
    ensures Antiderivative(pts, x) == LinePrimitive(m, k, x) - LinePrimitive(m, k, pts[0].x)
  {
    AreaThroughOfLinear(pts, m, k, SegmentAt(pts, x), x);
  }

  /** On samples of `y = m*x + k` the trapezoid rule is exact: the integral is
      `m*(x2*x2 - x1*x1)/2 + k*(x2 - x1)`. */
  lemma IntegralOfLinear(pts: seq<Vec3>, m: real, k: real, x1: real, x2: real)
    requires IntegralQuery(pts, x1, x2)
    requires forall n :: 0 <= n < |pts| ==> OnLinearFunction(pts[n], m, k)
    ensures IntegralSum(pts, x1, x2) == m * (x2 * x2 - x1 * x1) / 2.0 + k * (x2 - x1)
  {
    IntegralIsArea(pts, x1, x2);
    AntiderivativeOfLinear(pts, m, k, x1);
    AntiderivativeOfLinear(pts, m, k, x2);
  }

  /** The two bound loops of `integral`, run as written. Under `IntegralQuery` every
      guard read is in range, they agree with `LowerScan` and `UpperScan`, and they
      end with `0 <= i < j <= n-1` on the segments `SegmentAt(x1)` and
      `SegmentBefore(x2)`. */
  method FindBounds(pts: seq<Vec3>, x1: real, x2: real) returns (i: nat, j: nat)
    requires IntegralQuery(pts, x1, x2)
    ensures LowerScan(pts, x1, 0, |pts| - 1) == Some(i)
    ensures UpperScan(pts, x2, i, |pts| - 1) == Some(j as int)
    ensures 0 <= i < j <= |pts| - 1
    ensures i == SegmentAt(pts, x1) && j - 1 == SegmentBefore(pts, x2)
  {
    IncreasingIsNonDecreasing(pts);
    i, j := 0, |pts| - 1;
    while pts[i + 1].x <= x1 && j > i
      invariant 0 <= i <= |pts| - 2 && j == |pts| - 1
      invariant i == 0 || pts[i].x <= x1
      invariant LowerScan(pts, x1, i, j) == LowerScan(pts, x1, 0, |pts| - 1)
      decreases |pts| - i
    {
      i := i + 1;
    }
    BracketsIffLastLeft(pts, x1, false, i);
    ghost var top := j;
    while pts[j - 1].x >= x2 && i < j
      invariant i < j <= |pts| - 1
      invariant j == |pts| - 1 || pts[j].x >= x2
      invariant UpperScan(pts, x2, i, j) == UpperScan(pts, x2, i, top)
      decreases j
    {
      j := j - 1;
    }
    BracketsIffLastLeft(pts, x2, true, j - 1);
  }

  /** The interior loop of `integral`: `i` walks up and `j` walks down, adding the
      segment right of `i` and the segment left of `j` each round, or the single
      segment between them once they are adjacent. Every segment from `i` to `j` is
      added exactly once, so the result is the plain left-to-right sum. */
  method AddInterior(pts: seq<Vec3>, i: nat, j: nat, areaSum: real) returns (total: real)
    requires i <= j < |pts|
    ensures total == areaSum + SegSum(pts, i, j)
  {
    var lo, hi := i, j;
    total := areaSum;
    while lo < hi
      invariant i <= lo <= hi + 1 && hi <= j && lo <= j
      invariant total == areaSum + SegSum(pts, i, lo) + SegSum(pts, if lo <= hi then hi else lo, j)
      decreases hi - lo
    {
      SegSumSnoc(pts, i, lo);
      if hi - lo > 1 {
        total := total + Trapezoid(pts[lo], pts[lo + 1]);
        total := total + Trapezoid(pts[hi - 1], pts[hi]);
      } else {
        total := total + Trapezoid(pts[lo], pts[hi]);
      }
      hi := hi - 1;
      lo := lo + 1;
    }
    SegSumSplit(pts, i, lo, j);
  }

  /** `graph::integral(x1, x2)`. */
  method Integral(g: Graph, x1: real, x2: real) returns (area: real)
    requires IntegralQuery(g.points, x1, x2)
    ensures area == IntegralSum(g.points, x1, x2)
    ensures area == Antiderivative(g.points, x2) - Antiderivative(g.points, x1)
  {
    var pts := g.points;
    var i, j := FindBounds(pts, x1, x2);
    area := SumOnBounds(pts, x1, x2, i, j);
    IntegralIsArea(pts, x1, x2);
  }

  /** The part of `integral` after the bound search, given its bounds `i < j`. */
  method SumOnBounds(pts: seq<Vec3>, x1: real, x2: real, i: nat, j: nat) returns (area: real)
    requires Increasing(pts) && i < j < |pts|
    ensures area == SumBetween(pts, x1, x2, i, j)
  {
    assert pts[i].x < pts[i + 1].x && pts[j - 1].x < pts[j].x;
    var v1 := XLerp(x1, pts[i], pts[i + 1]);
    var v2 := XLerp(x2, pts[j - 1], pts[j]);
    if j - i == 1 {
      area := Trapezoid(v1, v2);
    } else {
      var areaSum := 0.0;
      var lo, hi := i + 1, j - 1;
      areaSum := areaSum + Trapezoid(v1, pts[lo]);
      areaSum := areaSum + Trapezoid(pts[hi], v2);
      area := AddInterior(pts, lo, hi, areaSum);
    }
  }
}
