# Calculus: a verified model of `calculus.cpp`

This project models the small C++ numeric library `calculus.cpp`. It covers
four parts:

- `vec3` and its operators.
- The semi-implicit Euler step `euler`.
- The two-point interpolation `x_lerp`.
- The `graph` class. A graph is a sequence of sample points read as a
  piecewise-linear function of x. It can be queried with `tangent(x)` and
  `integral(x1, x2)`.

C++ `double` is modelled as Dafny `real`, so all arithmetic is exact.

Modules, one per part of the library:

- `Vectors` (`vec3.dfy`): `Vec3` and componentwise `Add`, `Sub`, `Scale` (`v*m`)
  and `ScaleLeft` (`m*v`).
- `Kinematics` (`euler.dfy`): the `EulerData` record and `Euler`.
- `Interpolation` (`lerp.dfy`): `XLerp`, plus the trapezoid area and the slope
  of a segment, which the graph queries compute inline.
- `Graphs` (`graph.dfy`): the `Graph` datatype (points, `minX`, `maxX`),
  `NewGraph`, `Build`, `BuildXY`, and the segment bookkeeping both queries
  share. That bookkeeping has three parts:
  - `LastLeft` picks a segment. `SegmentAt` treats a sample lying exactly at x as
    the start of a segment. `SegmentBefore` treats it as the end of one.
  - `SegSum` adds the full trapezoids of a range of segments, left to right.
  - `Antiderivative` is a reference definition of the signed area under the
    piecewise-linear graph. Its first and last segments are extended past the
    samples.
- `Tangents` (`tangent.dfy`): the two-pointer narrowing loop (`NarrowSegment`)
  and `Tangent`.
- `Integrals` (`integral.dfy`): the two bound loops, in two forms:
  - `FindBounds`, an imperative method.
  - `LowerScan` and `UpperScan`, functions that return `None` exactly when the
    C++ guard would read `points[n]` or `points[-1]`.

  Also in this module: `IntegralSum`, which is the composite trapezoid sum
  written left to right, and the method `Integral`, whose interior loop walks
  from both ends at once.

The main results:

- `Integral` returns `IntegralSum`, and `IntegralSum` equals
  `Antiderivative(x2) - Antiderivative(x1)`. Integrals over adjacent ranges
  therefore add up.
- On samples of a line the trapezoid rule is exact.
- `Tangent` returns the slope of the unique segment that brackets x.
- For x-sorted samples and `x1 < x2`, the bound loops of `integral` stay in
  range exactly when `x1` lies left of the last sample and `x2` right of the
  first (`BoundScansDefinedIff`).

Where the code and its header comment disagree, the model follows the code:

- The header comment (calculus.cpp:22) says that integrating beyond the graph's
  bounds returns 0. In the code, the first bound loop reads `points[n]` when x1
  is at or right of the last sample, and the second reads `points[-1]` when x2
  is at or left of the first sample. `LowerScanDefinedIff`, `UpperScanDefinedIff`
  and `BoundScansDefinedIff` state this. `Integral` therefore requires x1 to lie
  left of the last sample and x2 right of the first. A query that reaches only
  partly outside the samples (x1 below the first sample, or x2 beyond the last)
  is accepted: code and model both extend the edge segment there rather than
  returning 0.

On x-sorted samples, whenever the lower bound loop stays in range it stops at
the last `i <= n-2` with `points[i].x <= x1`, or at 0 when there is none; that
is `SegmentAt(x1)` (`LowerScanDefinedIff`).

## Model

| member | source | states |
|---|---|---|
| Vectors.Add | calculus.cpp:37-40 | each component of `v1 + v2` is the sum of the operands' components |
| Vectors.Scale | calculus.cpp:47-50 | each component of `v * m` is `m` times the vector's component |
| Vectors.ScaleLeft | calculus.cpp:52-55 | `m * v` is the same vector as `v * m` |
| Vectors.Sub | calculus.cpp:42-45 | subtracting `b` is undone by adding `b` back |
| Vectors.AddSubRoundTrip | calculus.cpp:37-45 | adding and subtracting the same vector cancel, in either order |
| Vectors.AddCommutes | calculus.cpp:37-40 | addition is componentwise and so commutes |
| Vectors.ScaleOperandsCommute | calculus.cpp:47-55 | `v*m` and `m*v` are the same vector, each component multiplied by `m` |
| Kinematics.Euler | calculus.cpp:61-65 | acceleration unchanged; velocity gains `a*dt`; position gains `v*dt + a*dt*dt`, because it moves with the updated velocity |
| Kinematics.EulerUsesUpdatedVelocity | calculus.cpp:62-63 | the position moves by exactly the new velocity times `dt` |
| Kinematics.EulerFreeFall | calculus.cpp:61-65 | from rest with `a = (0,-9.8,0)` and `dt = 1`, both velocity and position become `(0,-9.8,0)` |
| Interpolation.XLerp | calculus.cpp:67-72 | the result has x-coordinate `x` and `z = 0`; it equals `v1.y` at `v1.x` and `v2.y` at `v2.x`; it lies on the line through `v1` and `v2` |
| Interpolation.LerpIsOnlyPointOnLine | calculus.cpp:69 | a point at `x` lies on the line through `v1`, `v2` if and only if its height is the interpolated one |
| Interpolation.LerpOfLinear | calculus.cpp:69 | interpolating two samples of `y = m*x + k` reproduces `m*x + k` at every `x` |
| Interpolation.SlopeOfLinear | calculus.cpp:172 | the slope between two samples of `y = m*x + k` is `m` |
| Interpolation.TrapezoidsAlongLineAdd | calculus.cpp:122 | trapezoids under one line from `s` to `t` and from `t` to `u` add up to the trapezoid from `s` to `u` |
| Interpolation.TrapezoidSplitAt | calculus.cpp:129 | cutting a segment's trapezoid at an interpolated point splits its area into the two parts |
| Graphs.NewGraph | calculus.cpp:74-77 | a new graph has no points and `min_x = max_x = 0` |
| Graphs.Build | calculus.cpp:79-82 | one more point, the new point last, earlier points and `min_x`/`max_x` unchanged |
| Graphs.BuildXY | calculus.cpp:84-88 | `build(x, y)` is `build` of the point `(x, y, 0)` |
| Graphs.BuildAllAppends | calculus.cpp:79-88 | appending points one by one puts exactly those points after the old ones, in order, and leaves `min_x`/`max_x` unchanged |
| Graphs.BuildFromNewGraph | calculus.cpp:74-88 | a graph built from scratch holds exactly the appended points in order, with `min_x` and `max_x` still 0 |
| Graphs.BuildKeepsIncreasing | calculus.cpp:79-82 | an append keeps the samples x-increasing if and only if the new point lies right of the last one |
| Graphs.LastLeft | calculus.cpp:163-170 | the chosen segment start is 0 or a sample left of `x`, and every later candidate start lies right of `x` |
| Graphs.BracketsIffLastLeft | calculus.cpp:163-170 | on x-sorted samples a segment brackets `x` if and only if it is the chosen one, so the bracketing segment is unique |
| Graphs.SegmentBeforeAt | calculus.cpp:111-113 | the upper bound's segment is never right of the tangent's; when they differ, the sample between them lies exactly at `x` |
| Graphs.SegmentAtSample | calculus.cpp:163-170 | at the x of a sample that opens a segment, that segment (the one to the sample's right) is chosen |
| Graphs.SegmentAtBeyondLast | calculus.cpp:163-170 | at or beyond the last sample, the last segment is chosen |
| Graphs.SegmentAtBelowFirst | calculus.cpp:163-170 | below the first sample, the first segment is chosen |
| Graphs.AntiderivativeBefore | calculus.cpp:118 | reading `x` on the segment the upper-bound loop picks gives the same area |
| Graphs.AntiderivativeAtSample | calculus.cpp:133-146 | at each sample, the area is the plain sum of the full trapezoids before it |
| Tangents.NarrowSegment | calculus.cpp:156-170 | on x-sorted samples the loop ends with `j == i+1` inside the points, on a segment that brackets `x`, namely `SegmentAt(x)` |
| Tangents.TangentOf | calculus.cpp:152-173 | 0 for a single point; otherwise a value `r` with `pts[s].y + r*(pts[s+1].x - pts[s].x) == pts[s+1].y` on the segment `s` that brackets `x`, i.e. rise over run of that segment |
| Tangents.Tangent | calculus.cpp:152-173 | returns 0 for a single point; otherwise returns the slope of the segment bracketing `x` |
| Tangents.TangentAtSample | calculus.cpp:163-172 | at an interior sample's x, the slope of the segment to that sample's right is returned |
| Tangents.TangentBeyondLast | calculus.cpp:163-172 | at or beyond the last sample, the slope of the last two samples is returned |
| Tangents.TangentBelowFirst | calculus.cpp:163-172 | below the first sample, the slope of the first two samples is returned |
| Tangents.TangentOfLinear | calculus.cpp:172 | on samples of `y = m*x + k` the tangent is `m` at every `x` |
| Tangents.TangentExample | calculus.cpp:152-173 | on `(0,0),(1,1),(2,4)` the tangent is 1 at 0.5 and 3 at 1.5 |
| Integrals.LowerScan | calculus.cpp:107-109 | the first bound loop as a function: when its guard reads stay in range, it stops on a segment `i' >= i` inside the points |
| Integrals.LowerScanExit | calculus.cpp:107-109 | when in range, the loop stops exactly where its guard first fails, having stepped only onto samples at or left of `x1` and never past `j` |
| Integrals.UpperScan | calculus.cpp:111-113 | the second bound loop as a function: when its guard reads stay in range, it stops on some `1 <= j' <= j` inside the points |
| Integrals.UpperScanExit | calculus.cpp:111-113 | when in range, the loop stops exactly where its guard first fails, having stepped past only samples at or right of `x2` and never below `i` |
| Integrals.LowerScanDefinedIff | calculus.cpp:107-109 | on x-sorted samples, the first bound loop stays in range if and only if there are at least two samples and `x1` is left of the last one; it then stops on `SegmentAt(x1)` |
| Integrals.UpperScanDefinedIff | calculus.cpp:111-113 | on x-sorted samples, from a lower segment `i` that is 0 or whose sample lies left of `x2`, the second loop stays in range if and only if `i > 0` or `x2` is right of the first sample; it then stops right of `i`, on `SegmentBefore(x2)` |
| Integrals.BoundScansDefinedIff | calculus.cpp:104-113 | for sorted samples and `x1 < x2`, both loops stay in range if and only if `x1 < last.x` and `first.x < x2` |
| Integrals.BoundsCollapseAtSample | calculus.cpp:107-113 | with `x1 == x2` at an interior sample, `j` walks down onto `i` |
| Integrals.FindBounds | calculus.cpp:104-113 | the loops agree with `LowerScan`/`UpperScan` and end with `0 <= i < j <= n-1` on `SegmentAt(x1)` and `SegmentBefore(x2)` |
| Integrals.AddInterior | calculus.cpp:133-146 | the two-ended walk adds every segment between its start and end exactly once, so it adds their plain left-to-right sum to the running total |
| Integrals.SumOnBounds | calculus.cpp:117-148 | given the bracketing segments, returns one trapezoid between the interpolated bounds when they share a segment, else the two partial end trapezoids plus the full interior trapezoids |
| Integrals.AreaWithinSegment | calculus.cpp:121-123 | when both bounds lie on one segment, the area between them is the single trapezoid between the two interpolated points |
| Integrals.AreaAcrossSegments | calculus.cpp:125-148 | when the bounds lie on different segments, the area between them is the two partial end trapezoids plus the full trapezoids in between |
| Integrals.Integral | calculus.cpp:102-150 | returns the left-to-right trapezoid sum, and this equals the area between the bounds under the piecewise-linear graph |
| Integrals.IntegralIsArea | calculus.cpp:117-148 | one trapezoid when both bounds share a segment, else two partial end trapezoids plus the interior trapezoids; this equals `Antiderivative(x2) - Antiderivative(x1)` |
| Integrals.IntegralAdditive | calculus.cpp:102-150 | integral from `a` to `b` plus integral from `b` to `c` equals integral from `a` to `c` |
| Integrals.IntegralBetweenSamples | calculus.cpp:125-148 | between two samples the result is the plain sum of the full trapezoids between them, each counted once |
| Integrals.IntegralExample | calculus.cpp:102-150 | on `(0,0),(1,1),(2,4)` the integral from 0 to 2 is 3 |
| Integrals.IntegralOfLinear | calculus.cpp:117-148 | on samples of `y = m*x + k` the result is exactly `m*(x2*x2 - x1*x1)/2 + k*(x2 - x1)` |

## Left out

- `print`, `graph::print_points` and the `cout` of `i` and `j` inside `integral` (calculus.cpp:57-59, 90-100, 115): console output only.
- IEEE-754 behaviour: rounding, and the infinities or NaN from dividing by zero. Values are exact reals. Zero denominators are excluded by preconditions (`NonVertical`, `Increasing`).
- `min_x` and `max_x` are carried as `Graph.minX`/`Graph.maxX`. The constructor zeroes them, and nothing reads or updates them.
- The header claim that integrating beyond the bounds returns 0 (calculus.cpp:22) is not modelled as a 0 result. The code reads out of range when x1 is at or right of the last sample or x2 at or left of the first, so `Integral` requires x1 left of the last sample and x2 right of the first. `LowerScanDefinedIff` and `UpperScanDefinedIff` state the out-of-range read.
- Queries on too few points: `tangent` on an empty graph reads `points[-1]`, and `integral` on fewer than two points reads `points[1]`. `Tangent` requires at least one point and `Integral` at least two.
- Integrals.Integral: assumes `x1 < x2`, a choice of the model rather than a need of the code (the bound reads can stay in range when `x1 >= x2`), so three kinds of query are not modelled. (1) `x1 == x2` at a sample, where `j` collapses onto `i` (see `BoundsCollapseAtSample`) and the else branch adds unrelated area. (2) `x1 == x2` strictly inside a segment, where the code takes the `j - i == 1` branch (calculus.cpp:121-122) and returns a zero-width trapezoid, 0. (3) `x1 > x2`, where the upper loop can walk `j` down onto `i`; what the code returns then is not modelled.
- Index width: the C++ indices are `int`, and `j` starts at `points.size() - 1` converted from an unsigned size (calculus.cpp:104-105, 156-157), which is how an empty graph gives `j == -1`. The model's indices are unbounded `int`/`nat`, so graphs with more than `INT_MAX` points, where the conversion would wrap, are not modelled.
- Integrals.Integral: assumes strictly increasing sample x, a choice of the model rather than a need of the code. On non-decreasing samples with repeated x the code is still well-defined whenever the two end segments are non-vertical (a repeated x then adds a zero-width trapezoid), and that case is not modelled.
- Tangents.Tangent: requires x-sorted samples. With unsorted samples the narrowing loop can stop making progress and spin forever.
