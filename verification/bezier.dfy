/** Cubic Bezier evaluation on vectors (`DeCasteljauEuler`) and the synthesis of
    the two inner control points of a segment from its neighbouring keyframes
    (interpolator.cpp, BezierInterpolationEuler and the root-position part of
    BezierInterpolationQuaternion). */
module Bezier {
  import opened Vectors

  /** Three rounds of pairwise blending, exactly as `DeCasteljauEuler` computes them. */
  function DeCasteljauEuler(t: real, p0: Vec, p1: Vec, p2: Vec, p3: Vec): Vec
  {
    var q0 := Lerp(p0, p1, t);
    var q1 := Lerp(p1, p2, t);
    var q2 := Lerp(p2, p3, t);
    var r0 := Lerp(q0, q1, t);
    var r1 := Lerp(q1, q2, t);
    Lerp(r0, r1, t)
  }

  /** The cubic Bernstein form of a Bezier curve, component by component. */
  function BernsteinScalar(t: real, a: real, b: real, c: real, d: real): real
  {
    var u := 1.0 - t;
    u * u * u * a + 3.0 * u * u * t * b + 3.0 * u * t * t * c + t * t * t * d
  }

  function Bernstein(t: real, p0: Vec, p1: Vec, p2: Vec, p3: Vec): Vec
  {
    Vec(BernsteinScalar(t, p0.x, p1.x, p2.x, p3.x),
        BernsteinScalar(t, p0.y, p1.y, p2.y, p3.y),
        BernsteinScalar(t, p0.z, p1.z, p2.z, p3.z))
  }

  /** One component of the blend `a * (1 - t) + b * t`. */
  function Mix(a: real, b: real, t: real): real
  {
    a * (1.0 - t) + b * t
  }

  /** One component of the De Casteljau triangle, as the source writes it. */
  function DeCasteljauScalar(t: real, a: real, b: real, c: real, d: real): real
  {
    var q0 := Mix(a, b, t);
    var q1 := Mix(b, c, t);
    var q2 := Mix(c, d, t);
    Mix(Mix(q0, q1, t), Mix(q1, q2, t), t)
  }

  lemma DeCasteljauScalarIsBernstein(t: real, a: real, b: real, c: real, d: real)
    ensures DeCasteljauScalar(t, a, b, c, d) == BernsteinScalar(t, a, b, c, d)
  {
    var u := 1.0 - t;
    var q0 := a * u + b * t;
    var q1 := b * u + c * t;
    var q2 := c * u + d * t;
    var r0 := q0 * u + q1 * t;
    var r1 := q1 * u + q2 * t;
    assert r0 == a * u * u + 2.0 * b * u * t + c * t * t;
    assert r1 == b * u * u + 2.0 * c * u * t + d * t * t;
    assert r0 * u == a * u * u * u + 2.0 * b * u * u * t + c * u * t * t;
    assert r1 * t == b * u * u * t + 2.0 * c * u * t * t + d * t * t * t;
  }

  /** The blend of two vectors, one component at a time. */
  lemma LerpComponents(a: Vec, b: Vec, t: real)
    ensures Lerp(a, b, t).x == Mix(a.x, b.x, t)
    ensures Lerp(a, b, t).y == Mix(a.y, b.y, t)
    ensures Lerp(a, b, t).z == Mix(a.z, b.z, t)
  {
  }

  /** The triangle of blends evaluates the cubic Bernstein polynomial of the
      four control points; it starts at the first and ends at the last. */
  lemma {:induction false} DeCasteljauIsBernstein(t: real, p0: Vec, p1: Vec, p2: Vec, p3: Vec)
    ensures DeCasteljauEuler(t, p0, p1, p2, p3) == Bernstein(t, p0, p1, p2, p3)
    ensures DeCasteljauEuler(0.0, p0, p1, p2, p3) == p0
    ensures DeCasteljauEuler(1.0, p0, p1, p2, p3) == p3
  {
    var q0 := Lerp(p0, p1, t);
    var q1 := Lerp(p1, p2, t);
    var q2 := Lerp(p2, p3, t);
    var r0 := Lerp(q0, q1, t);
    var r1 := Lerp(q1, q2, t);
    LerpComponents(p0, p1, t);
    LerpComponents(p1, p2, t);
    LerpComponents(p2, p3, t);
    LerpComponents(q0, q1, t);
    LerpComponents(q1, q2, t);
    LerpComponents(r0, r1, t);
    var r := Lerp(r0, r1, t);
    assert r.x == DeCasteljauScalar(t, p0.x, p1.x, p2.x, p3.x);
    assert r.y == DeCasteljauScalar(t, p0.y, p1.y, p2.y, p3.y);
    assert r.z == DeCasteljauScalar(t, p0.z, p1.z, p2.z, p3.z);
    DeCasteljauScalarIsBernstein(t, p0.x, p1.x, p2.x, p3.x);
    DeCasteljauScalarIsBernstein(t, p0.y, p1.y, p2.y, p3.y);
    DeCasteljauScalarIsBernstein(t, p0.z, p1.z, p2.z, p3.z);
    LerpEndpoints(p0, p1);
    LerpEndpoints(p2, p3);
  }

  // ---------------------------------------------------------------------------
  // Convex hull
  // ---------------------------------------------------------------------------

  function Min4(a: real, b: real, c: real, d: real): (m: real)
    ensures m <= a && m <= b && m <= c && m <= d
    ensures m == a || m == b || m == c || m == d
  {
    var ab := if a <= b then a else b;
    var cd := if c <= d then c else d;
    if ab <= cd then ab else cd
  }

  function Max4(a: real, b: real, c: real, d: real): (m: real)
    ensures m >= a && m >= b && m >= c && m >= d
    ensures m == a || m == b || m == c || m == d
  {
    var ab := if a >= b then a else b;
    var cd := if c >= d then c else d;
    if ab >= cd then ab else cd
  }
  /** Each component of `r` lies between the least and the greatest of the four
      control points' components. */
  predicate InHull(p0: Vec, p1: Vec, p2: Vec, p3: Vec, r: Vec)
  {
    && Min4(p0.x, p1.x, p2.x, p3.x) <= r.x <= Max4(p0.x, p1.x, p2.x, p3.x)
    && Min4(p0.y, p1.y, p2.y, p3.y) <= r.y <= Max4(p0.y, p1.y, p2.y, p3.y)
    && Min4(p0.z, p1.z, p2.z, p3.z) <= r.z <= Max4(p0.z, p1.z, p2.z, p3.z)
  }

  lemma NonNegProduct(p: real, q: real)
    requires p >= 0.0 && q >= 0.0
    ensures p * q >= 0.0
  {
  }

  /** The four Bernstein weights are nonnegative on [0, 1] and sum to one. */
  lemma BernsteinWeights(t: real)
    requires 0.0 <= t <= 1.0
    ensures var u := 1.0 - t;
      && u * u * u >= 0.0 && 3.0 * u * u * t >= 0.0
      && 3.0 * u * t * t >= 0.0 && t * t * t >= 0.0
      && u * u * u + 3.0 * u * u * t + 3.0 * u * t * t + t * t * t == 1.0
  {
    var u := 1.0 - t;
    NonNegProduct(u, u);
    NonNegProduct(u * u, u);
    NonNegProduct(u * u, t);
    NonNegProduct(t, t);
    NonNegProduct(u, t * t);
    NonNegProduct(t * t, t);
    assert (u + t) * (u + t) * (u + t) == 1.0;
  }

  /** A convex combination of values that are all at least `lo` is at least `lo`. */
  lemma ConvexAbove(w0: real, w1: real, w2: real, w3: real, a: real, b: real, c: real, d: real, lo: real)
    requires w0 >= 0.0 && w1 >= 0.0 && w2 >= 0.0 && w3 >= 0.0
    requires w0 + w1 + w2 + w3 == 1.0
    requires lo <= a && lo <= b && lo <= c && lo <= d
    ensures lo <= w0 * a + w1 * b + w2 * c + w3 * d
  {
    NonNegProduct(w0, a - lo);
    NonNegProduct(w1, b - lo);
    NonNegProduct(w2, c - lo);
    NonNegProduct(w3, d - lo);
    assert w0 * a + w1 * b + w2 * c + w3 * d - lo
        == w0 * (a - lo) + w1 * (b - lo) + w2 * (c - lo) + w3 * (d - lo);
  }

  /** A convex combination of values that are all at most `hi` is at most `hi`. */
  lemma ConvexBelow(w0: real, w1: real, w2: real, w3: real, a: real, b: real, c: real, d: real, hi: real)
    requires w0 >= 0.0 && w1 >= 0.0 && w2 >= 0.0 && w3 >= 0.0
    requires w0 + w1 + w2 + w3 == 1.0
    requires a <= hi && b <= hi && c <= hi && d <= hi
    ensures w0 * a + w1 * b + w2 * c + w3 * d <= hi
  {
    NonNegProduct(w0, hi - a);
    NonNegProduct(w1, hi - b);
    NonNegProduct(w2, hi - c);
    NonNegProduct(w3, hi - d);
    assert hi - (w0 * a + w1 * b + w2 * c + w3 * d)
        == w0 * (hi - a) + w1 * (hi - b) + w2 * (hi - c) + w3 * (hi - d);
  }

  lemma BernsteinScalarInHull(t: real, a: real, b: real, c: real, d: real)
    requires 0.0 <= t <= 1.0
    ensures Min4(a, b, c, d) <= BernsteinScalar(t, a, b, c, d) <= Max4(a, b, c, d)
  {
    var u := 1.0 - t;
    BernsteinWeights(t);
    var w0, w1, w2, w3 := u * u * u, 3.0 * u * u * t, 3.0 * u * t * t, t * t * t;
    assert BernsteinScalar(t, a, b, c, d) == w0 * a + w1 * b + w2 * c + w3 * d;
    ConvexAbove(w0, w1, w2, w3, a, b, c, d, Min4(a, b, c, d));
    ConvexBelow(w0, w1, w2, w3, a, b, c, d, Max4(a, b, c, d));
  }

  /** For `0 <= t <= 1` the evaluated point stays inside the box of the control points. */
  lemma {:induction false} DeCasteljauInHull(t: real, p0: Vec, p1: Vec, p2: Vec, p3: Vec)
    requires 0.0 <= t <= 1.0
    ensures InHull(p0, p1, p2, p3, DeCasteljauEuler(t, p0, p1, p2, p3))
  {
    DeCasteljauIsBernstein(t, p0, p1, p2, p3);
    BernsteinScalarInHull(t, p0.x, p1.x, p2.x, p3.x);
    BernsteinScalarInHull(t, p0.y, p1.y, p2.y, p3.y);
    BernsteinScalarInHull(t, p0.z, p1.z, p2.z, p3.z);
  }

  // ---------------------------------------------------------------------------
  // Control points
  // ---------------------------------------------------------------------------

  /** The control point `a` leaving the start keyframe `s`. In the first segment
      there is no previous keyframe and `e` is mirrored away from `next` instead;
      otherwise `s` is mirrored away from `prev` and averaged with `e`. Either way
      the point is pulled a third of the way from `s`. In an interior segment this
      is the Catmull-Rom tangent `s + (e - prev) / 6`. */
  function ControlA(first: bool, prev: Vec, s: Vec, e: Vec, next: Vec): Vec
  {
    if first then
      var middle := Sub(Scale(e, 2.0), next);
      Add(Scale(s, 1.0 - 1.0 / 3.0), Scale(middle, 1.0 / 3.0))
    else
      var middle := Sub(Scale(s, 2.0), prev);
      var aHat := Add(Scale(middle, 0.5), Scale(e, 0.5));
      Add(Scale(s, 1.0 - 1.0 / 3.0), Scale(aHat, 1.0 / 3.0))
  }

  /** The control point `b` arriving at the end keyframe `e`. In the last segment
      there is no next keyframe and `s` mirrored away from `prev` is used;
      otherwise `e` is mirrored away from `s`, averaged with `next`, and the
      result is reflected a third of the way back through `e`. In an interior
      segment this is the Catmull-Rom tangent `e - (next - s) / 6`. */
  function ControlB(last: bool, prev: Vec, s: Vec, e: Vec, next: Vec): Vec
  {
    if last then
      var middle := Sub(Scale(s, 2.0), prev);
      Add(Scale(e, 1.0 - 1.0 / 3.0), Scale(middle, 1.0 / 3.0))
    else
      var middle := Sub(Scale(e, 2.0), s);
      var bHat := Add(Scale(middle, 0.5), Scale(next, 0.5));
      Sub(Scale(e, 1.0 + 1.0 / 3.0), Scale(bHat, 1.0 / 3.0))
  }

  /** A whole Bezier segment between keyframes `s` and `e` evaluated at `t`. */
  function Segment(t: real, first: bool, last: bool, prev: Vec, s: Vec, e: Vec, next: Vec): Vec
  {
    DeCasteljauEuler(t, s, ControlA(first, prev, s, e, next), ControlB(last, prev, s, e, next), e)
  }

  /** The control points in closed form: in an interior segment they are the
      Catmull-Rom points `s + (e - prev) / 6` and `e - (next - s) / 6`; at a
      boundary the missing neighbour is replaced by reflecting the other one. */
  lemma ControlPointsClosedForm(first: bool, last: bool, prev: Vec, s: Vec, e: Vec, next: Vec)
    ensures first ==> ControlA(first, prev, s, e, next) == Add(Scale(Add(s, e), 2.0 / 3.0), Scale(next, -1.0 / 3.0))
    ensures !first ==> ControlA(first, prev, s, e, next) == Add(s, Scale(Sub(e, prev), 1.0 / 6.0))
    ensures last ==> ControlB(last, prev, s, e, next) == Add(Scale(Add(s, e), 2.0 / 3.0), Scale(prev, -1.0 / 3.0))
    ensures !last ==> ControlB(last, prev, s, e, next) == Sub(e, Scale(Sub(next, s), 1.0 / 6.0))
  {
  }

  /** A segment is the cubic Bernstein polynomial of its keyframes and control
      points, and for `0 <= t <= 1` it stays inside their box. */
  lemma SegmentIsBernstein(t: real, first: bool, last: bool, prev: Vec, s: Vec, e: Vec, next: Vec)
    ensures Segment(t, first, last, prev, s, e, next)
         == Bernstein(t, s, ControlA(first, prev, s, e, next), ControlB(last, prev, s, e, next), e)
    ensures 0.0 <= t <= 1.0 ==>
      InHull(s, ControlA(first, prev, s, e, next), ControlB(last, prev, s, e, next), e,
             Segment(t, first, last, prev, s, e, next))
  {
    var a := ControlA(first, prev, s, e, next);
    var b := ControlB(last, prev, s, e, next);
    DeCasteljauIsBernstein(t, s, a, b, e);
    if 0.0 <= t <= 1.0 {
      DeCasteljauInHull(t, s, a, b, e);
    }
  }

  /** Tangent continuity at a shared keyframe: the `b` of the segment ending at
      `p1` and the `a` of the segment starting at `p1` (neither of them a
      boundary case there) have `p1` as their midpoint, whatever the outer
      neighbours are. */
  lemma JunctionIsSmooth(p0: Vec, p1: Vec, p2: Vec, before: Vec, after: Vec)
    ensures
      var b := ControlB(false, before, p0, p1, p2);
      var a := ControlA(false, p0, p1, p2, after);
      Add(b, a) == Scale(p1, 2.0)
  {
  }

  /** A segment that is the last one but not the first never uses the next
      keyframe: its curve is the same whatever is passed for it. */
  lemma LastSegmentIgnoresNext(t: real, prev: Vec, s: Vec, e: Vec, x: Vec, y: Vec)
    ensures Segment(t, false, true, prev, s, e, x) == Segment(t, false, true, prev, s, e, y)
  {
  }

  /** Every segment starts at its start keyframe and ends at its end keyframe. */
  lemma SegmentEndpoints(first: bool, last: bool, prev: Vec, s: Vec, e: Vec, next: Vec)
    ensures Segment(0.0, first, last, prev, s, e, next) == s
    ensures Segment(1.0, first, last, prev, s, e, next) == e
  {
    var a := ControlA(first, prev, s, e, next);
    var b := ControlB(last, prev, s, e, next);
    DeCasteljauIsBernstein(0.0, s, a, b, e);
  }
}
