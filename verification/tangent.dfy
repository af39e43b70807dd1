/** `graph::tangent`: the slope of the one segment a two-pointer scan settles on. */
module Tangents {
  import opened Vectors
  import opened Interpolation
  import opened Graphs

  /** The narrowing loop of `tangent`: `j` steps left while the sample before it
      lies right of `x`, `i` steps right while the sample after it lies at or left
      of `x`, until the window `[i, j]` is a single segment. It ends on x-sorted
      samples (the window shrinks every round) and never reads outside the points. */
  method NarrowSegment(pts: seq<Vec3>, x: real) returns (i: nat, j: nat)
    requires |pts| >= 2 && NonDecreasing(pts)
    ensures j == i + 1 && j <= |pts| - 1
    ensures Brackets(pts, x, false, i)
    ensures i == SegmentAt(pts, x)
  {
    i, j := 0, |pts| - 1;
    while i < j - 1
      invariant 0 <= i < j <= |pts| - 1
      invariant i == 0 || pts[i].x <= x
      invariant j == |pts| - 1 || pts[j].x > x
      decreases j - i
    {
      if pts[j - 1].x > x && j - 1 > i {
        j := j - 1;
      }
      if pts[i + 1].x <= x && i < j {
        i := i + 1;
      }
    }
    BracketsIffLastLeft(pts, x, false, i);
  }

  /** What `tangent` answers: 0 for a single point, otherwise the slope of the
      segment `SegmentAt` picks. */
  function TangentOf(pts: seq<Vec3>, x: real): (r: real)
    requires |pts| >= 1
    requires |pts| >= 2 ==> NonVertical(pts, SegmentAt(pts, x))
    ensures |pts| == 1 ==> r == 0.0
    ensures |pts| >= 2 ==> var s := SegmentAt(pts, x);
              Brackets(pts, x, false, s) && pts[s].y + r * (pts[s + 1].x - pts[s].x) == pts[s + 1].y
  {
    if |pts| == 1 then 0.0
    else
      var s := SegmentAt(pts, x);
      Slope(pts[s], pts[s + 1])
  }

  /** `graph::tangent(x)`. The points must be x-sorted so that the scan ends, and
      the chosen segment must not be vertical so that the final division is defined. */
  method Tangent(g: Graph, x: real) returns (slope: real)
    requires |g.points| >= 1 && NonDecreasing(g.points)
    requires |g.points| >= 2 ==> NonVertical(g.points, SegmentAt(g.points, x))
    ensures |g.points| == 1 ==> slope == 0.0
    ensures |g.points| >= 2 ==> exists i :: 0 <= i < |g.points| - 1 && Brackets(g.points, x, false, i)
                                   && NonVertical(g.points, i) && slope == Slope(g.points[i], g.points[i + 1])
    ensures slope == TangentOf(g.points, x)
  {
    var pts := g.points;
    if |pts| - 1 == 0 {
      return 0.0;
    }
    var i, j := NarrowSegment(pts, x);
    slope := (pts[j].y - pts[i].y) / (pts[j].x - pts[i].x);
  }

  /** At an interior sample's x the slope of the segment to that sample's right
      is returned. */
  lemma TangentAtSample(pts: seq<Vec3>, k: nat)
    requires Increasing(pts) && k + 1 < |pts|
    ensures NonVertical(pts, SegmentAt(pts, pts[k].x))
    ensures TangentOf(pts, pts[k].x) == Slope(pts[k], pts[k + 1])
  {
    SegmentAtSample(pts, k);
    assert pts[k].x < pts[k + 1].x;
  }

  /** At or beyond the last sample the slope of the last segment is returned. */
  lemma TangentBeyondLast(pts: seq<Vec3>, x: real)
    requires |pts| >= 2 && Increasing(pts) && x >= pts[|pts| - 1].x
    ensures NonVertical(pts, SegmentAt(pts, x))
    ensures TangentOf(pts, x) == Slope(pts[|pts| - 2], pts[|pts| - 1])
  {
    IncreasingIsNonDecreasing(pts);
    SegmentAtBeyondLast(pts, x);
    assert pts[|pts| - 2].x < pts[|pts| - 1].x;
  }

  /** Below the first sample the slope of the first segment is returned. */
  lemma TangentBelowFirst(pts: seq<Vec3>, x: real)
    requires |pts| >= 2 && Increasing(pts) && x < pts[0].x
    ensures NonVertical(pts, SegmentAt(pts, x))
    ensures TangentOf(pts, x) == Slope(pts[0], pts[1])
  {
    IncreasingIsNonDecreasing(pts);
    SegmentAtBelowFirst(pts, x);
    assert pts[0].x < pts[1].x;
  }

  /** On samples of `y = m*x + k` the tangent is `m` everywhere, inside the
      sampled range or outside it. */
  lemma TangentOfLinear(pts: seq<Vec3>, m: real, k: real, x: real)
    requires |pts| >= 2 && Increasing(pts)
    requires forall n :: 0 <= n < |pts| ==> OnLinearFunction(pts[n], m, k)
    ensures NonVertical(pts, SegmentAt(pts, x))
    ensures TangentOf(pts, x) == m
  {
    var s := SegmentAt(pts, x);
    assert pts[s].x < pts[s + 1].x;
    SlopeOfLinear(pts[s], pts[s + 1], m, k);
  }

  /** The samples `(0,0)`, `(1,1)`, `(2,4)` of `y = x*x`: slope 1 at 0.5 and slope 3
      at 1.5, which at these segment midpoints matches the exact derivative `2*x`.
      The query point is a parameter pinned by the precondition: with a literal
      argument the solver unrolls `LastLeft` far enough to run out of resource. */
  lemma TangentExample(x: real)
    requires x == 0.5 || x == 1.5
    ensures TangentOf(ParabolaSamples, x) == 2.0 * x
  {
    var pts := ParabolaSamples;
    if x == 0.5 {
      assert !LeftOf(pts[1], x, false);
      assert SegmentAt(pts, x) == 0;
    } else {
      assert LeftOf(pts[1], x, false);
      assert SegmentAt(pts, x) == 1;
    }
  }
}
