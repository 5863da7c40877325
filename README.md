# 2D collision tests, modelled in Dafny

The repository's logic is one JavaScript library, `playground.js`. It is a set
of boolean collision tests between points, circles (centre and radius),
axis-aligned rectangles (corner, width and height), line segments and
polygons (vertex lists, implicitly closed). This project models every test of
that library in Dafny and proves what each one decides. In the point, circle
and rectangle tests and in `lineCircle` and `polyCircle`, touching counts as
colliding. There are two exceptions. `lineLine` never reports segments that
lie on one line, even when they share a point, and `lineRect`, `polyLine` and
`polyPoly` inherit this from it. `polyPoint` decides a half-open region: on
the corners of a rectangle of non-negative size, it puts the right edge and
the edge at `y == ry` outside.

The model has four modules, one file each, following the library's layers:

- `distance.dfy` (`Distance`): `dist` and every `Math.sqrt(d) <= r` test,
  with no root taken. `DistSq` is the squared distance, and
  `WithinRadius(d, r)` is `r >= 0 && d <= r * r`. `RootCompare` proves this
  is the same test as comparing any non-negative root of `d` with `r`.
- `shapes.dfy` (`Shapes`): `pointPoint`, `pointCircle`, `circleCircle`,
  `pointRect` and `rectRect` as predicates. `circleRect` is a method, because
  the source reassigns its locals `testX` and `testY`.
- `segments.dfy` (`Segments`): `lineLine`, `lineRect`, `linePoint` and
  `lineCircle` as predicates. `lineLine` is modelled over its denominator and
  numerators. `lineCircle` is modelled over the projection parameter `dot`.
- `polygons.dfy` (`Polygons`): `polyPoint`, `polyLine`, `polyCircle` and
  `polyPoly` as methods. They keep the source's index loop and its
  wrap-around `next`. Each is proved equal to a predicate over the edges:
  - `Inside` is the even-odd count of `Crossings`;
  - `SegmentMeetsPolygon`, `CircleMeetsPolygon` and `PolygonsMeet` each say
    that some edge reports.

Coordinates are `real`.

Where JavaScript's floating point decides a result, the model follows the
value the source computes:
- In `lineLine`, a zero denominator makes each quotient NaN or infinite. NaN
  fails every comparison and an infinity fails one of its two bounds, so the
  conjunction on playground.js:189 is false.
- In `lineCircle`, a zero-length segment makes `dot` equal `0 / 0`, which is
  NaN. `linePoint` then fails and the result is false.

## Model

| member | source | states |
|---|---|---|
| Shapes.PointPoint | playground.js:13-15 | definition of `pointPoint`: the two points have equal coordinates, compared exactly |
| Shapes.PointCircle | playground.js:26-31 | definition of `pointCircle`: the squared distance from the centre is within the radius (`WithinRadius`) |
| Shapes.CircleCircle | playground.js:43-48 | definition of `circleCircle`: the squared distance between the centres is within `c1r + c2r` |
| Shapes.PointRect | playground.js:60-62 | definition of `pointRect`: the four inclusive comparisons against the edges |
| Shapes.RectRect | playground.js:76-78 | definition of `rectRect`: the four inclusive comparisons of the rectangles' extents |
| Segments.LineLine | playground.js:183-190 | definition of `lineLine`: the denominator is not zero and both quotients `uA`, `uB` lie in [0, 1] |
| Segments.LineRect | playground.js:204-211 | definition of `lineRect`: `lineLine` against the left, right, top or bottom edge |
| Segments.LinePoint | playground.js:132-139 | definition of `linePoint` over its three roots: `d1 + d2` lies within 0.1 of `lineLen` |
| Segments.LinePointAt | playground.js:132-139 | `linePoint` for the point at parameter `t` on the segment's line, without roots (agreement proved by `LinePointOnLine`) |
| Segments.LineCircle | playground.js:152-169 | definition of `lineCircle`: an end in the circle, or else (for a segment of non-zero length) the projection of the centre passes `linePoint` and lies in the circle |
| Polygons.Inside | playground.js:220-239 | reference predicate for `polyPoint`: the number of edges the rightward ray crosses is odd |
| Polygons.SegmentMeetsPolygon | playground.js:303-319 | reference predicate for `polyLine`: some edge `(i, next)` meets the segment by `lineLine` |
| Polygons.CircleMeetsPolygon | playground.js:249-267 | reference predicate for `polyCircle`: some edge `(i, next)` collides with the circle by `lineCircle` |
| Polygons.PolygonsMeet | playground.js:275-292 | reference predicate for `polyPoly`: some edge of `p1` meets `p2`, or `p1` is non-empty and contains `p2[0]` |
| Distance.DistSq | playground.js:116-120 | the squared distance is never negative and is zero exactly when the two points coincide |
| Distance.RootCompare | playground.js:26-31 | for every non-negative root `s` of `d`, `s <= r` holds exactly when `WithinRadius(d, r)`: the root-free test is the source's `Math.sqrt(d) <= r` |
| Distance.RootUnique | playground.js:116-120 | a non-negative root is unique, so `dist` is determined by `DistSq` |
| Distance.DistSqSymmetric | playground.js:116-120 | the distance from a to b equals the distance from b to a |
| Shapes.PointPointAsCircle | playground.js:13-15 | two points coincide exactly when one lies in the zero-radius circle round the other |
| Shapes.PointCircleMatchesRoot | playground.js:26-31 | `PointCircle` agrees with `dist(px, py, cx, cy) <= r` for the root the source computes |
| Shapes.PointCircleAtCentre | playground.js:26-31 | a centre is in its own circle exactly when the radius is not negative |
| Shapes.PointCircleCloser | playground.js:26-31 | a point no further from the centre than a point in the circle is in the circle |
| Shapes.CircleCircleMatchesRoot | playground.js:43-48 | `CircleCircle` agrees with comparing the root of the centre distance with `c1r + c2r` |
| Shapes.CircleCircleSymmetric | playground.js:43-48 | swapping the two circles does not change the result |
| Shapes.CircleCircleFromCommonPoint | playground.js:43-48 | two circles that share a point collide |
| Shapes.CircleCircleHasCommonPoint | playground.js:43-48 | two colliding circles with non-negative radii share a point |
| Shapes.CommonPointAt | playground.js:43-48 | the shared point lies on the line between the centres, at fraction `c1r / (c1r + c2r)` of the way |
| Shapes.CircleCircleSharePoint | playground.js:43-48 | for non-negative radii, `circleCircle` holds exactly when the two discs share a point (both directions) |
| Shapes.PointRectEdgesInclusive | playground.js:60-62 | every point on the four edges of a rectangle of non-negative size is inside: the test includes its edges |
| Shapes.PointRectAsRectRect | playground.js:76-78 | a point is in a rectangle exactly when the zero-size rectangle at the point collides with it |
| Shapes.RectRectSymmetric | playground.js:76-78 | swapping the two rectangles does not change the result |
| Shapes.RectRectSharePoint | playground.js:76-78 | for sizes that are not negative, `rectRect` holds exactly when the rectangles share a point, touching edges included |
| Shapes.CircleRect | playground.js:91-106 | a negative radius never collides; a centre inside the rectangle collides exactly when the radius is not negative; for a rectangle of non-negative size, the result is true exactly when some point of the rectangle is in the circle, because the clamped point is the nearest |
| Shapes.AxisNearest | playground.js:96-99 | the clamped coordinate `testX` (or `testY`) is at least as close to the centre as any coordinate of the rectangle on that axis |
| Segments.CramerFromMeet | playground.js:184-187 | where the two lines meet, the parameters solve the linear system whose Cramer solution is `uA`, `uB` |
| Segments.MeetFromCramer | playground.js:184-187 | with a non-zero denominator, `uA` and `uB` locate a common point of the two lines |
| Segments.LineLineMeaning | playground.js:183-190 | `lineLine` holds exactly when the denominator is not zero and the two segments share a point with both parameters in [0, 1] |
| Segments.LineLineSymmetric | playground.js:183-190 | swapping the two segments does not change the result |
| Segments.LineLineReversed | playground.js:183-190 | swapping the ends of the first segment does not change the result |
| Segments.LineLineSecondReversed | playground.js:183-190 | swapping the ends of the second segment does not change the result |
| Segments.LineLineZeroLength | playground.js:183-190 | a segment whose ends coincide never reports, as either argument |
| Segments.LineLineCollinear | playground.js:183-190 | when both ends of the second segment lie on the line through the first, the denominator is zero and `lineLine` is false |
| Segments.LineLineMissesOverlap | playground.js:183-190 | a second segment that starts at a point of the first and runs along the same line shares that point with it, yet `lineLine` is false |
| Segments.LineRectZeroWidth | playground.js:204-211 | with zero width, only the left edge can report |
| Segments.LineRectZeroHeight | playground.js:204-211 | with zero height, only the top edge can report |
| Segments.LineRectZeroSize | playground.js:204-211 | a rectangle of zero width and height never collides with a segment |
| Segments.LineRectReversed | playground.js:204-211 | swapping the two ends of the segment does not change `lineRect` |
| Segments.LineRectSound | playground.js:204-211 | when `lineRect` reports, some point of the segment lies in the rectangle (non-negative size) |
| Segments.StrictlyInsideEdge | playground.js:183-190 | a segment with both ends strictly on one side of an axis-aligned edge does not meet it |
| Segments.LineRectMissesInnerSegment | playground.js:204-211 | a segment with both ends strictly inside the rectangle does not collide: only the edges are tested |
| Segments.Excess | playground.js:132-139 | how much the two end distances exceed the length, per unit length: never negative, and zero exactly when the point lies on the segment |
| Segments.LinePointAtOnSegment | playground.js:132-139 | every point of the segment passes `linePoint`, whatever the segment's length |
| Segments.DistancesAlongLine | playground.js:133-135 | the point at parameter `t` is at squared distance `t²·len²` from the first end and `(1-t)²·len²` from the second |
| Segments.LinePointByParameter | playground.js:132-139 | given those distances, `linePoint` with the 0.1 buffer holds exactly when `Excess(t)² · len² <= 0.1²` |
| Segments.LinePointOnLine | playground.js:132-139 | for a point on the line through the segment, `linePoint` over the three roots it computes agrees with the root-free `LinePointAt` |
| Segments.LineCircleEndpoints | playground.js:152-154 | `lineCircle` holds whenever either end is in the circle |
| Segments.LineCircleZeroLength | playground.js:152-169 | for a segment of zero length, `lineCircle` is `pointCircle` of its one point |
| Segments.ProjectionClosest | playground.js:161-163 | the squared distance from the centre to the point at `t` is the squared distance at the projection `dot` plus `len² · (t - dot)²` |
| Segments.ProjectionNearest | playground.js:161-163 | no point of the line is closer to the centre than the projection |
| Segments.LineCircleAtProjection | playground.js:152-169 | when neither end is in the circle, `lineCircle` tests exactly the projected point: it must pass `linePoint` and lie in the circle |
| Segments.LineCircleSound | playground.js:152-169 | when `lineCircle` reports, some point of the line passes `linePoint` and lies in the circle |
| Segments.LineCircleComplete | playground.js:152-169 | when some point of the segment is in the circle, `lineCircle` reports |
| Segments.ProjectionOnSegment | playground.js:161-163 | when a point of the segment is in the circle but neither end is, the projection lies on the segment |
| Segments.ProjectionInCircle | playground.js:161-169 | in that case the projection passes `linePoint` and lies in the circle |
| Segments.DotFromBothEnds | playground.js:161 | the projections measured from the two ends add up to the squared length |
| Segments.LineCircleReversed | playground.js:152-169 | swapping the two ends of the segment does not change the result |
| Polygons.Next | playground.js:225-226 | the next index stays in range and wraps from the last vertex to the first |
| Polygons.CrossingsRotated | playground.js:220-239 | listing the vertices from vertex `k` on rotates the per-edge crossing flags by `k` |
| Polygons.CrossingsReversed | playground.js:220-239 | reversing the vertex list reverses the crossing flags of all edges but the closing one, which keeps its place |
| Polygons.PolyPoint | playground.js:220-239 | the result is true exactly when an odd number of edges pass the crossing test; the division only runs for straddling edges, whose ends are at different heights |
| Polygons.CrossesSymmetric | playground.js:232-233 | the crossing test of an edge does not depend on the edge's direction |
| Polygons.InsideRotated | playground.js:220-239 | `polyPoint` gives the same answer whichever vertex the list starts from |
| Polygons.InsideReversed | playground.js:220-239 | `polyPoint` gives the same answer for either winding order |
| Polygons.OutsideWhenLevelClear | playground.js:220-239 | a point with `y < py` for every vertex, or `y >= py` for every vertex, is outside; so is every point for an empty vertex list |
| Polygons.OutsideWhenRightOfAll | playground.js:220-239 | a point at or to the right of every vertex is outside |
| Polygons.CrossXBetween | playground.js:233 | where a straddling edge meets the horizontal line lies no further right than the edge's ends |
| Polygons.InsideRectangle | playground.js:220-239 | on a rectangle's four corners, `polyPoint` decides the half-open box `rx <= px < rx + rw`, `ry < py <= ry + rh`, unlike the inclusive `pointRect` |
| Polygons.PolyLine | playground.js:303-319 | the result is true exactly when some edge `(i, next)` meets the segment by `lineLine`; an empty list gives false |
| Polygons.SegmentMeetsPolygonRotated | playground.js:303-319 | `polyLine` gives the same answer whichever vertex the list starts from |
| Polygons.SegmentMeetsPolygonReversed | playground.js:303-319 | `polyLine` gives the same answer for either winding order |
| Polygons.SegmentMeetsPolygonSegmentReversed | playground.js:303-319 | `polyLine` gives the same answer with the segment's ends swapped |
| Polygons.PolyLineOnRectangle | playground.js:303-319 | on a rectangle's four corners, `polyLine` decides exactly what `lineRect` decides |
| Polygons.PolyCircle | playground.js:249-267 | the result is true exactly when some edge `(i, next)` collides with the circle by `lineCircle`; an empty list gives false |
| Polygons.CircleMeetsPolygonAtVertex | playground.js:249-267 | a vertex in the circle is reported |
| Polygons.CircleMeetsPolygonComplete | playground.js:249-267 | any point of the outline in the circle is reported |
| Polygons.CircleMeetsPolygonSound | playground.js:249-267 | a reported collision has a point in the circle on the line of some edge, within `linePoint`'s tolerance of that edge |
| Polygons.CircleMeetsPolygonRotated | playground.js:249-267 | `polyCircle` gives the same answer whichever vertex the list starts from |
| Polygons.CircleMeetsPolygonReversed | playground.js:249-267 | `polyCircle` gives the same answer for either winding order |
| Polygons.CircleWithinRectangleMissed | playground.js:262-264 | the centre test is commented out, so a circle wholly inside a rectangle is not reported, although `polyPoint` puts its centre inside |
| Polygons.PolyPoly | playground.js:275-292 | for non-empty `p1`, the result is true exactly when some edge of `p1` meets `p2` by `polyLine` or `polyPoint(p1, p2[0])` holds; an empty `p1` gives false |
| Polygons.EdgesMeetSymmetric | playground.js:275-292 | the edge part of `polyPoly` is symmetric: an edge of `p1` meets an edge of `p2` exactly when an edge of `p2` meets an edge of `p1` |
| Polygons.NestedRectanglesAsymmetric | playground.js:275-292 | `polyPoly` is not symmetric: for a rectangle strictly inside another, `polyPoly(outer, inner)` is true and `polyPoly(inner, outer)` is false, because only `p2[0]` is tested for containment |

## Left out

- Floating point: coordinates are exact reals. Rounding, NaN and infinities are
  not modelled, except where they decide a result: a zero denominator in
  `lineLine` and a zero-length segment in `lineCircle` both give false.
- `Math.sqrt` is never computed. Distance tests compare squares, and
  `RootCompare` shows this is the same test. `linePoint` is modelled twice:
  - `LinePoint` takes the three roots as arguments;
  - for points on the line through the segment, `LinePointAt` needs no root.
  `lineCircle` only calls `linePoint` on such a point, and `LinePointOnLine`
  proves the two forms agree there. `linePoint` at a point off that line is
  modelled only through `LinePoint` over given roots.
- `polyPoly` with a non-empty `p1` and an empty `p2` throws a TypeError when it
  reads `p2[0].x`. `PolyPoly` requires `p2` to be non-empty whenever `p1` is.
- `lineCircle` on a segment of zero length is not a precondition. It is
  modelled as the source computes it: false unless an end is in the circle.
- Vertices are `Vertex(x, y)` values. Objects with other fields, missing
  fields or non-numeric coordinates are not modelled.
- Polygons.CircleMeetsPolygonSound: does not place the point on the edge
  itself, only within `linePoint`'s 0.1 tolerance of it, because that is all
  `lineCircle` checks.
- `src/App.jsx`, `src/components/ProgressCard.jsx` and
  `src/components/Wrapper.jsx` are React view code (rendering, styling, click
  handling, loading `data.json`). They are not part of this model.
