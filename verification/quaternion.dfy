/** Quaternion interpolation of interpolator.cpp: `Slerp` and
    `DeCasteljauQuaternion`. The trigonometric parts (normalisation by a square
    root, the spherical branch of `Slerp`, and the Euler/quaternion
    conversions) are not modelled; they are the fields of a `Kit`, so every
    statement below holds whatever those functions are. What is modelled is the
    control structure around them, including `Slerp`'s side effects on its
    two by-reference arguments. */
module Quaternions {
  import opened Vectors

  /** A quaternion (s, x, y, z). */
  datatype Quat = Quat(s: real, x: real, y: real, z: real)

  /** The four-component dot product `Slerp` computes. */
  function Dot4(p: Quat, q: Quat): real
  {
    p.s * q.s + p.x * q.x + p.y * q.y + p.z * q.z
  }

  /** The sign flip of `Slerp`: the same rotation, the other hemisphere. */
  function Neg4(q: Quat): Quat
  {
    Quat(-q.s, -q.x, -q.y, -q.z)
  }

  /** Negation is an involution and flips the sign of every dot product. */
  lemma Neg4Flips(p: Quat, q: Quat)
    ensures Neg4(Neg4(q)) == q
    ensures Dot4(p, Neg4(q)) == -Dot4(p, q)
  {
  }

  /** Component-wise blend `p * (1 - t) + q * t` of the near-parallel fallback. */
  function Lerp4(p: Quat, q: Quat, t: real): Quat
  {
    Quat(p.s * (1.0 - t) + q.s * t, p.x * (1.0 - t) + q.x * t,
         p.y * (1.0 - t) + q.y * t, p.z * (1.0 - t) + q.z * t)
  }

  /** The blend is its first argument at 0 and its second at 1. */
  lemma Lerp4Endpoints(p: Quat, q: Quat)
    ensures Lerp4(p, q, 0.0) == p
    ensures Lerp4(p, q, 1.0) == q
  {
  }

  /** Above this dot product `Slerp` blends linearly instead of spherically. */
  const Threshold: real := 0.9995

  /** The operations this model leaves abstract.
      - normalize: `Quaternion::Normalize` (division by the square-root norm);
      - arc: the spherical branch of `Slerp` for normalised, sign-corrected
        endpoints: the clamp of the dot product to 1, `acos`, the
        Gram-Schmidt direction, `cos`/`sin` and the final normalisation;
      - eulerToQuat: `Euler2Quaternion` (`Euler2Rotation`, then the
        quaternion-from-matrix conversion);
      - quatToEuler: `Quaternion2Euler` (the matrix of the quaternion, then
        `Rotation2Euler`). */
  datatype Kit = Kit(
    normalize: Quat -> Quat,
    arc: (real, Quat, Quat) -> Quat,
    eulerToQuat: Vec -> Quat,
    quatToEuler: Quat -> Vec)

  /** What a call `Slerp(t, qStart, qEnd)` leaves behind: its result, and the
      new values of its two by-reference arguments. */
  datatype SlerpCall = SlerpCall(value: Quat, start: Quat, end: Quat)

  /** `Slerp`. Both arguments are normalised in place. If their dot product
      exceeds the threshold the result is the normalised linear blend and the
      end is left as it is. Otherwise the end is negated in place when the dot
      product is negative, so that the arc taken is the shorter one, and the
      spherical branch runs on the corrected pair. */
  function Slerp(k: Kit, t: real, qStart: Quat, qEnd: Quat): SlerpCall
  {
    var a := k.normalize(qStart);
    var b := k.normalize(qEnd);
    var dot := Dot4(a, b);
    if dot > Threshold then
      SlerpCall(k.normalize(Lerp4(a, b, t)), a, b)
    else if dot < 0.0 then
      SlerpCall(k.arc(t, a, Neg4(b)), a, Neg4(b))
    else
      SlerpCall(k.arc(t, a, b), a, b)
  }

  /** After a call both arguments are normalised, the end possibly negated, so
      that they lie in the same hemisphere; when they were nearly parallel to
      begin with the result is the normalised linear blend. */
  lemma SlerpSideEffects(k: Kit, t: real, qStart: Quat, qEnd: Quat)
    ensures var c := Slerp(k, t, qStart, qEnd);
      && c.start == k.normalize(qStart)
      && (c.end == k.normalize(qEnd) || c.end == Neg4(k.normalize(qEnd)))
      && Dot4(c.start, c.end) >= 0.0
      && (Dot4(c.start, k.normalize(qEnd)) > Threshold ==> c.value == k.normalize(Lerp4(c.start, c.end, t)))
  {
    Neg4Flips(k.normalize(qStart), k.normalize(qEnd));
  }

  /** The threshold test comes before the sign flip: for nearly opposite
      quaternions (the same rotation up to sign) the linear fallback is not
      taken, although after the flip the pair is nearly parallel and the
      spherical branch works with an angle close to zero. */
  lemma NearlyOppositeSkipsFallback(k: Kit, t: real, qStart: Quat, qEnd: Quat)
    requires Dot4(k.normalize(qStart), k.normalize(qEnd)) < -Threshold
    ensures Slerp(k, t, qStart, qEnd).end == Neg4(k.normalize(qEnd))
    ensures Dot4(Slerp(k, t, qStart, qEnd).start, Slerp(k, t, qStart, qEnd).end) > Threshold
    ensures Slerp(k, t, qStart, qEnd).value == k.arc(t, k.normalize(qStart), Neg4(k.normalize(qEnd)))
  {
  }

  /** `DeCasteljauQuaternion`: the De Casteljau triangle with every blend a
      `Slerp`. The four control points are passed by value, but each `Slerp`
      call normalises (and may negate) the locals it is handed, and those
      updated locals feed the next call; the result is normalised once more. */
  function DeCasteljauQuaternion(k: Kit, t: real, p0: Quat, p1: Quat, p2: Quat, p3: Quat): Quat
  {
    var c0 := Slerp(k, t, p0, p1);
    var c1 := Slerp(k, t, c0.end, p2);
    var c2 := Slerp(k, t, c1.end, p3);
    var q0, q1, q2 := c0.value, c1.value, c2.value;
    var d0 := Slerp(k, t, q0, q1);
    var d1 := Slerp(k, t, d0.end, q2);
    var e := Slerp(k, t, d0.value, d1.value);
    k.normalize(e.value)
  }

  // ---------------------------------------------------------------------------
  // Endpoint laws, relative to the laws the abstract operations obey
  // ---------------------------------------------------------------------------

  /** Laws of exact normalisation and of the spherical arc at its two ends. */
  ghost predicate Laws(k: Kit)
  {
    && (forall q :: k.normalize(k.normalize(q)) == k.normalize(q))
    && (forall q :: k.normalize(Neg4(q)) == Neg4(k.normalize(q)))
    && (forall a, b :: k.arc(0.0, a, b) == k.normalize(a))
    && (forall a, b :: k.arc(1.0, a, b) == k.normalize(b))
  }

  /** `Slerp` at 0 yields its (normalised) start and at 1 its end as left
      behind by the call, which is the normalised end up to sign. */
  lemma SlerpEndpoints(k: Kit, p: Quat, q: Quat)
    requires Laws(k)
    ensures Slerp(k, 0.0, p, q).value == k.normalize(p)
    ensures Slerp(k, 1.0, p, q).value == Slerp(k, 1.0, p, q).end
  {
    var a := k.normalize(p);
    var b := k.normalize(q);
    assert k.normalize(a) == a;
    assert k.normalize(b) == b;
    assert k.normalize(Neg4(b)) == Neg4(b);
  }

  /** At t = 0 the quaternion Bezier curve starts at its first control point;
      at t = 1 it ends at its last control point, up to sign (the same rotation). */
  lemma {:induction false} DeCasteljauQuaternionEndpoints(k: Kit, p0: Quat, p1: Quat, p2: Quat, p3: Quat)
    requires Laws(k)
    ensures DeCasteljauQuaternion(k, 0.0, p0, p1, p2, p3) == k.normalize(p0)
    ensures var r := DeCasteljauQuaternion(k, 1.0, p0, p1, p2, p3);
      r == k.normalize(p3) || r == Neg4(k.normalize(p3))
  {
    var c0 := Slerp(k, 0.0, p0, p1);
    var c1 := Slerp(k, 0.0, c0.end, p2);
    var c2 := Slerp(k, 0.0, c1.end, p3);
    var d0 := Slerp(k, 0.0, c0.value, c1.value);
    var d1 := Slerp(k, 0.0, d0.end, c2.value);
    var e := Slerp(k, 0.0, d0.value, d1.value);
    SlerpEndpoints(k, p0, p1);
    SlerpSideEffects(k, 0.0, p0, p1);
    SlerpEndpoints(k, c0.value, c1.value);
    SlerpEndpoints(k, d0.value, d1.value);
    assert k.normalize(k.normalize(p0)) == k.normalize(p0);

    var f0 := Slerp(k, 1.0, p0, p1);
    var f1 := Slerp(k, 1.0, f0.end, p2);
    var f2 := Slerp(k, 1.0, f1.end, p3);
    var g0 := Slerp(k, 1.0, f0.value, f1.value);
    var g1 := Slerp(k, 1.0, g0.end, f2.value);
    var h := Slerp(k, 1.0, g0.value, g1.value);
    SlerpEndpoints(k, f1.end, p3);
    SlerpSideEffects(k, 1.0, f1.end, p3);
    SlerpEndpoints(k, g0.end, f2.value);
    SlerpEndpoints(k, g0.value, g1.value);
    var n3 := k.normalize(p3);
    assert k.normalize(n3) == n3;
    assert k.normalize(Neg4(n3)) == Neg4(n3);
    assert f2.value == n3 || f2.value == Neg4(n3);
    assert g1.value == n3 || g1.value == Neg4(n3);
    assert h.value == n3 || h.value == Neg4(n3);
  }
}
