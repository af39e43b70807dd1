/** The `graph` class: an append-only sequence of sample points read as a
    piecewise-linear function of x, and the segment bookkeeping that its
    `tangent` and `integral` queries share. */
module Graphs {
  import opened Vectors
  import opened Interpolation

  /** The sample points in insertion order, plus the `min_x`/`max_x` fields,
      which the constructor zeroes and no operation reads or updates. */
  datatype Graph = Graph(points: seq<Vec3>, minX: real, maxX: real)

  /** `graph::graph()`: no points, both bookkeeping fields 0. */
  function NewGraph(): (r: Graph)
    ensures |r.points| == 0 && r.minX == 0.0 && r.maxX == 0.0
  {
    Graph([], 0.0, 0.0)
  }

  /** `build(vec3)`: the new point goes last, nothing else changes. */
  function Build(g: Graph, v: Vec3): (r: Graph)
    ensures |r.points| == |g.points| + 1
    ensures r.points[|g.points|] == v
    ensures r.points[..|g.points|] == g.points
    ensures r.minX == g.minX && r.maxX == g.maxX
  {
    g.(points := g.points + [v])
  }

  /** `build(x, y)`: appends the point `(x, y, 0)`. */
  function BuildXY(g: Graph, x: real, y: real): (r: Graph)
    ensures r == Build(g, Vec3(x, y, 0.0))
  {
    g.(points := g.points + [Vec3(x, y, 0.0)])
  }

  /** A caller appending `vs` one point at a time. */
  function BuildAll(g: Graph, vs: seq<Vec3>): Graph
    decreases |vs|
  {
    if vs == [] then g else BuildAll(Build(g, vs[0]), vs[1..])
  }

  /** Appending one point at a time puts exactly those points after the old ones,
      in order, and leaves `min_x` and `max_x` alone. */
  lemma {:induction false} BuildAllAppends(g: Graph, vs: seq<Vec3>)
    ensures BuildAll(g, vs).points == g.points + vs
    ensures BuildAll(g, vs).minX == g.minX && BuildAll(g, vs).maxX == g.maxX
    decreases |vs|
  {
    if vs != [] {
      BuildAllAppends(Build(g, vs[0]), vs[1..]);
      assert g.points + [vs[0]] + vs[1..] == g.points + vs;
    }
  }

  /** Three samples of `y = x*x`, used in the worked examples. */
  const ParabolaSamples: seq<Vec3> := [Vec3(0.0, 0.0, 0.0), Vec3(1.0, 1.0, 0.0), Vec3(2.0, 4.0, 0.0)]

  /** A graph built from scratch holds exactly the appended points, in order, with
      `min_x` and `max_x` still 0. */
  lemma BuildFromNewGraph(vs: seq<Vec3>)
    ensures BuildAll(NewGraph(), vs) == Graph(vs, 0.0, 0.0)
  {
    BuildAllAppends(NewGraph(), vs);
  }

  /** Sample x-coordinates never go down. */
  predicate NonDecreasing(pts: seq<Vec3>)
  {
    forall a, b :: 0 <= a <= b < |pts| ==> pts[a].x <= pts[b].x
  }

  /** Sample x-coordinates strictly go up. */
  predicate Increasing(pts: seq<Vec3>)
  {
    forall a, b :: 0 <= a < b < |pts| ==> pts[a].x < pts[b].x
  }

  lemma IncreasingIsNonDecreasing(pts: seq<Vec3>)
    requires Increasing(pts)
    ensures NonDecreasing(pts)
  {
  }

  /** The x-order the graph's queries assume is kept by an append exactly when
      the new point lies to the right of the last one. */
  lemma BuildKeepsIncreasing(g: Graph, v: Vec3)
    requires Increasing(g.points)
    ensures Increasing(Build(g, v).points) <==> (|g.points| == 0 || g.points[|g.points| - 1].x < v.x)
  {
    var pts := Build(g, v).points;
    if |g.points| > 0 && g.points[|g.points| - 1].x < v.x {
      forall a, b | 0 <= a < b < |pts|
        ensures pts[a].x < pts[b].x
      {
        if b == |g.points| {
          assert g.points[a].x <= g.points[|g.points| - 1].x;
        }
      }
    }
    if Increasing(pts) && |g.points| > 0 {
      assert pts[|g.points| - 1].x < pts[|g.points|].x;
    }
  }

  /** A sample at `p` counts as "left of" `x`: at or before it, or strictly before it. */
  predicate LeftOf(p: Vec3, x: real, strict: bool)
  {
    if strict then p.x < x else p.x <= x
  }

  /** The last index `s <= k` whose sample is left of `x`, or 0 when there is none. */
  function LastLeft(pts: seq<Vec3>, x: real, strict: bool, k: nat): (s: nat)
    requires k < |pts|
    ensures s <= k
    ensures s == 0 || LeftOf(pts[s], x, strict)
    ensures forall m :: s < m <= k ==> !LeftOf(pts[m], x, strict)
    decreases k
  {
    if k == 0 || LeftOf(pts[k], x, strict) then k else LastLeft(pts, x, strict, k - 1)
  }

  /** Segment `i` (from `pts[i]` to `pts[i+1]`) brackets `x`: its left end is left of
      `x` unless it is the first segment, its right end is not unless it is the last. */
  predicate Brackets(pts: seq<Vec3>, x: real, strict: bool, i: nat)
    requires i + 1 < |pts|
  {
    && (i == 0 || LeftOf(pts[i], x, strict))
    && (i == |pts| - 2 || !LeftOf(pts[i + 1], x, strict))
  }

  /** The segment used at `x` when a sample exactly at `x` opens a segment
      (`tangent`, and the lower bound of `integral`). */
  function SegmentAt(pts: seq<Vec3>, x: real): nat
    requires |pts| >= 2
  {
    LastLeft(pts, x, false, |pts| - 2)
  }

  /** The segment used at `x` when a sample exactly at `x` closes a segment
      (the upper bound of `integral`). */
  function SegmentBefore(pts: seq<Vec3>, x: real): nat
    requires |pts| >= 2
  {
    LastLeft(pts, x, true, |pts| - 2)
  }

  /** On x-sorted samples exactly one segment brackets `x`, and it is `LastLeft`'s. */
  lemma BracketsIffLastLeft(pts: seq<Vec3>, x: real, strict: bool, i: nat)
    requires |pts| >= 2 && NonDecreasing(pts) && i + 1 < |pts|
    ensures Brackets(pts, x, strict, i) <==> i == LastLeft(pts, x, strict, |pts| - 2)
  {
    var s := LastLeft(pts, x, strict, |pts| - 2);
    if i == s && s < |pts| - 2 {
      assert !LeftOf(pts[s + 1], x, strict);
    }
    if i < s {
      assert pts[i + 1].x <= pts[s].x;
    }
  }

  /** The strict choice never lies right of the non-strict one, and when they differ
      the sample between them sits exactly at `x`. */
  lemma SegmentBeforeAt(pts: seq<Vec3>, x: real)
    requires |pts| >= 2 && Increasing(pts)
    ensures SegmentBefore(pts, x) <= SegmentAt(pts, x)
    ensures SegmentBefore(pts, x) != SegmentAt(pts, x) ==>
              SegmentAt(pts, x) == SegmentBefore(pts, x) + 1 && pts[SegmentAt(pts, x)].x == x
  {
    var sa, sb := SegmentAt(pts, x), SegmentBefore(pts, x);
    if sb > sa {
      assert LeftOf(pts[sb], x, false);
    }
    if sb < sa {
      assert pts[sa].x == x;
      assert pts[sa - 1].x < pts[sa].x;
    }
  }

  /** A segment is usable for interpolation when its ends have distinct x. */
  predicate NonVertical(pts: seq<Vec3>, i: nat)
    requires i + 1 < |pts|
  {
    pts[i].x != pts[i + 1].x
  }

  /** Left-to-right sum of the full trapezoids of segments `lo` up to `hi - 1`. */
  function SegSum(pts: seq<Vec3>, lo: nat, hi: nat): real
    requires lo <= hi < |pts|
    decreases hi - lo
  {
    if lo == hi then 0.0 else Trapezoid(pts[lo], pts[lo + 1]) + SegSum(pts, lo + 1, hi)
  }

  /** The segment sum grows at its right end by the next trapezoid. */
  lemma {:induction false} SegSumSnoc(pts: seq<Vec3>, lo: nat, hi: nat)
    requires lo <= hi && hi + 1 < |pts|
    ensures SegSum(pts, lo, hi + 1) == SegSum(pts, lo, hi) + Trapezoid(pts[hi], pts[hi + 1])
    decreases hi - lo
  {
    if lo < hi {
      SegSumSnoc(pts, lo + 1, hi);
    }
  }

  /** Segment sums over adjacent ranges add up. */
  lemma {:induction false} SegSumSplit(pts: seq<Vec3>, lo: nat, mid: nat, hi: nat)
    requires lo <= mid <= hi < |pts|
    ensures SegSum(pts, lo, hi) == SegSum(pts, lo, mid) + SegSum(pts, mid, hi)
    decreases mid - lo
  {
    if lo < mid {
      SegSumSplit(pts, lo + 1, mid, hi);
    }
  }

  /** Signed area from `pts[0].x` to `x` when `x` is read on segment `k`: the full
      trapezoids before `k`, then the part of segment `k` up to `x`. */
  function AreaThrough(pts: seq<Vec3>, k: nat, x: real): real
    requires Increasing(pts) && k + 1 < |pts|
  {
    SegSum(pts, 0, k) + Trapezoid(pts[k], XLerp(x, pts[k], pts[k + 1]))
  }

  /** Signed area under the piecewise-linear graph (its first and last segments
      extended beyond the samples) from the first sample's x to `x`. */
  function Antiderivative(pts: seq<Vec3>, x: real): real
    requires |pts| >= 2 && Increasing(pts)
  {
    AreaThrough(pts, SegmentAt(pts, x), x)
  }

  /** At the sample shared by segments `k` and `k+1` both readings agree. */
  lemma AreaThroughContinuous(pts: seq<Vec3>, k: nat)
    requires Increasing(pts) && k + 2 < |pts|
    ensures AreaThrough(pts, k, pts[k + 1].x) == AreaThrough(pts, k + 1, pts[k + 1].x)
  {
    SegSumSnoc(pts, 0, k);
  }

  /** Reading `x` on the strict segment gives the same area. */
  lemma AntiderivativeBefore(pts: seq<Vec3>, x: real)
    requires |pts| >= 2 && Increasing(pts)
    ensures Antiderivative(pts, x) == AreaThrough(pts, SegmentBefore(pts, x), x)
  {
    SegmentBeforeAt(pts, x);
    if SegmentBefore(pts, x) != SegmentAt(pts, x) {
      AreaThroughContinuous(pts, SegmentBefore(pts, x));
    }
  }

  /** At the x of a sample that opens a segment, that segment is chosen. */
  lemma SegmentAtSample(pts: seq<Vec3>, k: nat)
    requires Increasing(pts) && k + 1 < |pts|
    ensures SegmentAt(pts, pts[k].x) == k
  {
    IncreasingIsNonDecreasing(pts);
    assert pts[k].x < pts[k + 1].x;
    BracketsIffLastLeft(pts, pts[k].x, false, k);
  }

  /** At or beyond the last sample the last segment is chosen. */
  lemma SegmentAtBeyondLast(pts: seq<Vec3>, x: real)
    requires |pts| >= 2 && NonDecreasing(pts) && x >= pts[|pts| - 1].x
    ensures SegmentAt(pts, x) == |pts| - 2
  {
    assert pts[|pts| - 2].x <= pts[|pts| - 1].x;
    BracketsIffLastLeft(pts, x, false, |pts| - 2);
  }

  /** Below the first sample the first segment is chosen. */
  lemma SegmentAtBelowFirst(pts: seq<Vec3>, x: real)
    requires |pts| >= 2 && NonDecreasing(pts) && x < pts[0].x
    ensures SegmentAt(pts, x) == 0
  {
    assert pts[0].x <= pts[1].x;
    BracketsIffLastLeft(pts, x, false, 0);
  }

  /** At every sample the area is the plain sum of the full trapezoids before it. */
  lemma AntiderivativeAtSample(pts: seq<Vec3>, k: nat)
    requires |pts| >= 2 && Increasing(pts) && k < |pts|
    ensures Antiderivative(pts, pts[k].x) == SegSum(pts, 0, k)
  {
    if k + 1 < |pts| {
      AntiderivativeAtOpeningSample(pts, k);
    } else {
      AntiderivativeAtLastSample(pts, k);
    }
  }

  lemma AntiderivativeAtOpeningSample(pts: seq<Vec3>, k: nat)
    requires Increasing(pts) && k + 1 < |pts|
    ensures Antiderivative(pts, pts[k].x) == SegSum(pts, 0, k)
  {
    SegmentAtSample(pts, k);
    AreaAtLeftEnd(pts, k);
  }

  lemma AntiderivativeAtLastSample(pts: seq<Vec3>, k: nat)
    requires |pts| >= 2 && Increasing(pts) && k == |pts| - 1
    ensures Antiderivative(pts, pts[k].x) == SegSum(pts, 0, k)
  {
    IncreasingIsNonDecreasing(pts);
    SegmentAtBeyondLast(pts, pts[k].x);
    AreaAtRightEnd(pts, k - 1);
  }

  lemma AreaAtLeftEnd(pts: seq<Vec3>, k: nat)
    requires Increasing(pts) && k + 1 < |pts|
    ensures AreaThrough(pts, k, pts[k].x) == SegSum(pts, 0, k)
  {
    var v := XLerp(pts[k].x, pts[k], pts[k + 1]);
    assert Trapezoid(pts[k], v) == 0.0;
  }

  lemma AreaAtRightEnd(pts: seq<Vec3>, k: nat)
    requires Increasing(pts) && k + 1 < |pts|
    ensures AreaThrough(pts, k, pts[k + 1].x) == SegSum(pts, 0, k + 1)
  {
    var v := XLerp(pts[k + 1].x, pts[k], pts[k + 1]);
    assert Trapezoid(pts[k], v) == Trapezoid(pts[k], pts[k + 1]);
    SegSumSnoc(pts, 0, k);
  }
}
