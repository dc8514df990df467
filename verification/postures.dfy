/** Postures, motions, and the in-between posture each of the four routines of
    interpolator.cpp computes for one frame of a segment. */
module Postures {
  import opened Vectors
  import opened Quaternions
  import opened Bezier
  import opened Segments

  /** One frame: the root position and one Euler-angle triple (degrees) per bone. */
  datatype Posture = Posture(root: Vec, bones: seq<Vec>)

  /** The frames of a motion, indexed from 0. */
  type Motion = seq<Posture>

  /** Every posture of a motion has the same number of bones (the posture
      stores a fixed-size bone array). */
  predicate Uniform(m: Motion)
  {
    forall i :: 0 <= i < |m| ==> |m[i].bones| == |m[0].bones|
  }

  /** The values the Bezier routines use for the next keyframe when they never
      loaded it: the default-constructed root vector, bone vectors and bone
      quaternions, whose contents this model leaves unspecified. */
  datatype Unloaded = Unloaded(root: Vec, bone: nat -> Vec, quat: nat -> Quat)

  /** The next keyframe's posture, if the routine loaded it. */
  datatype Neighbour = Loaded(posture: Posture) | NotLoaded

  function NextRoot(next: Neighbour, u: Unloaded): Vec
  {
    match next
    case Loaded(p) => p.root
    case NotLoaded => u.root
  }

  function NextBone(next: Neighbour, u: Unloaded, b: nat): Vec
    requires next.Loaded? ==> b < |next.posture.bones|
  {
    match next
    case Loaded(p) => p.bones[b]
    case NotLoaded => u.bone(b)
  }

  function NextBoneQuat(k: Kit, next: Neighbour, u: Unloaded, b: nat): Quat
    requires next.Loaded? ==> b < |next.posture.bones|
  {
    match next
    case Loaded(p) => k.eulerToQuat(p.bones[b])
    case NotLoaded => u.quat(b)
  }

  predicate SameShape(p: Posture, q: Posture)
  {
    |p.bones| == |q.bones|
  }

  predicate NeighbourShape(next: Neighbour, s: Posture)
  {
    next.Loaded? ==> SameShape(next.posture, s)
  }

  // ---------------------------------------------------------------------------
  // Linear, Euler angles
  // ---------------------------------------------------------------------------

  /** LinearInterpolationEuler: root and every bone triple blended linearly. */
  function LinearEulerPosture(s: Posture, e: Posture, t: real): (p: Posture)
    requires SameShape(s, e)
    ensures SameShape(p, s)
  {
    Posture(Lerp(s.root, e.root, t),
            seq(|s.bones|, b requires 0 <= b < |s.bones| => Lerp(s.bones[b], e.bones[b], t)))
  }

  // ---------------------------------------------------------------------------
  // Linear, quaternions
  // ---------------------------------------------------------------------------

  /** One bone of LinearInterpolationQuaternion: both triples converted to
      quaternions, `Slerp`, a further normalisation, and back to Euler angles. */
  function LinearQuaternionCurve(k: Kit, a: Vec, b: Vec, t: real): Quat
  {
    k.normalize(Slerp(k, t, k.eulerToQuat(a), k.eulerToQuat(b)).value)
  }

  /** LinearInterpolationQuaternion: the root blended linearly as in the Euler
      routine, every bone through quaternions. */
  function LinearQuaternionPosture(k: Kit, s: Posture, e: Posture, t: real): (p: Posture)
    requires SameShape(s, e)
    ensures SameShape(p, s)
  {
    Posture(Lerp(s.root, e.root, t),
            seq(|s.bones|, b requires 0 <= b < |s.bones| =>
              k.quatToEuler(LinearQuaternionCurve(k, s.bones[b], e.bones[b], t))))
  }

  // ---------------------------------------------------------------------------
  // Bezier, Euler angles
  // ---------------------------------------------------------------------------

  /** BezierInterpolationEuler: the root and every bone triple on the Bezier
      segment between the keyframes, with control points from the previous and
      next keyframes. */
  function BezierEulerPosture(t: real, split: Split, prev: Posture, s: Posture, e: Posture,
                              next: Neighbour, u: Unloaded): (p: Posture)
    requires SameShape(prev, s) && SameShape(s, e) && NeighbourShape(next, s)
    ensures SameShape(p, s)
  {
    Posture(Bezier.Segment(t, split.first, split.last, prev.root, s.root, e.root, NextRoot(next, u)),
            seq(|s.bones|, b requires 0 <= b < |s.bones| =>
              Bezier.Segment(t, split.first, split.last, prev.bones[b], s.bones[b], e.bones[b],
                             NextBone(next, u, b))))
  }

  // ---------------------------------------------------------------------------
  // Bezier, quaternions
  // ---------------------------------------------------------------------------

  /** The four keyframe quaternions of one bone (previous, start, end, next) as
      the `Slerp` calls leave them. */
  datatype Rotations = Rotations(r0: Quat, r1: Quat, r2: Quat, r3: Quat)

  /** A synthesised control point together with the keyframe quaternions after
      the calls that produced it. */
  datatype Control = Control(point: Quat, after: Rotations)

  /** The quaternion control point `a` leaving the start keyframe. First
      segment: `middle = Slerp(2, r3, r2)`, `a = Slerp(1/3, r1, middle)`.
      Otherwise: `middle = Slerp(2, r0, r1)`, `aHat = Slerp(1/2, middle, r2)`,
      `a = Slerp(1/3, r1, aHat)`. */
  function OutgoingControl(k: Kit, first: bool, r: Rotations): Control
  {
    if first then
      var middle := Slerp(k, 2.0, r.r3, r.r2);
      var a := Slerp(k, 1.0 / 3.0, r.r1, middle.value);
      Control(a.value, r.(r1 := a.start, r2 := middle.end, r3 := middle.start))
    else
      var middle := Slerp(k, 2.0, r.r0, r.r1);
      var aHat := Slerp(k, 0.5, middle.value, r.r2);
      var a := Slerp(k, 1.0 / 3.0, middle.end, aHat.value);
      Control(a.value, r.(r0 := middle.start, r1 := a.start, r2 := aHat.end))
  }

  /** The quaternion control point `b` arriving at the end keyframe. Last
      segment: `middle = Slerp(2, r0, r1)`, `b = Slerp(1/3, r2, middle)`.
      Otherwise: `middle = Slerp(2, r1, r2)`, `bHat = Slerp(1/2, middle, r3)`,
      a discarded `Slerp(1/3, r2, middle)` whose only effect is on its
      arguments, and `b = Slerp(-1/3, r2, bHat)`. */
  function IncomingControl(k: Kit, last: bool, r: Rotations): Control
  {
    if last then
      var middle := Slerp(k, 2.0, r.r0, r.r1);
      var b := Slerp(k, 1.0 / 3.0, r.r2, middle.value);
      Control(b.value, r.(r0 := middle.start, r1 := middle.end, r2 := b.start))
    else
      var middle := Slerp(k, 2.0, r.r1, r.r2);
      var bHat := Slerp(k, 0.5, middle.value, r.r3);
      var discarded := Slerp(k, 1.0 / 3.0, middle.end, bHat.start);
      var b := Slerp(k, -1.0 / 3.0, discarded.start, bHat.value);
      Control(b.value, r.(r1 := middle.start, r2 := b.start, r3 := bHat.end))
  }

  /** One bone of BezierInterpolationQuaternion, before the conversion back to
      Euler angles. `r3` is the next keyframe's quaternion, or the unloaded one. */
  function BezierQuaternionCurve(k: Kit, t: real, split: Split, a0: Vec, a1: Vec, a2: Vec, r3: Quat): Quat
  {
    var r := Rotations(k.eulerToQuat(a0), k.eulerToQuat(a1), k.eulerToQuat(a2), r3);
    var a := OutgoingControl(k, split.first, r);
    var b := IncomingControl(k, split.last, a.after);
    DeCasteljauQuaternion(k, t, b.after.r1, a.point, b.point, b.after.r2)
  }

  /** BezierInterpolationQuaternion: the root on the same vector Bezier segment
      as in the Euler routine, every bone on a quaternion Bezier segment. */
  function BezierQuaternionPosture(k: Kit, t: real, split: Split, prev: Posture, s: Posture, e: Posture,
                                   next: Neighbour, u: Unloaded): (p: Posture)
    requires SameShape(prev, s) && SameShape(s, e) && NeighbourShape(next, s)
    ensures SameShape(p, s)
  {
    Posture(Bezier.Segment(t, split.first, split.last, prev.root, s.root, e.root, NextRoot(next, u)),
            seq(|s.bones|, b requires 0 <= b < |s.bones| =>
              k.quatToEuler(BezierQuaternionCurve(k, t, split, prev.bones[b], s.bones[b], e.bones[b],
                                                  NextBoneQuat(k, next, u, b)))))
  }

  // ---------------------------------------------------------------------------
  // Endpoint laws
  // ---------------------------------------------------------------------------

  /** Two quaternions for the same rotation: `q` is `p` normalised, up to sign. */
  predicate SameRotation(k: Kit, q: Quat, p: Quat)
  {
    q == k.normalize(p) || q == Neg4(k.normalize(p))
  }

  /** Linear interpolation of Euler angles reproduces the start keyframe at
      t = 0 and the end keyframe at t = 1, root and bones alike. */
  lemma {:induction false} LinearEulerEndpoints(s: Posture, e: Posture)
    requires SameShape(s, e)
    ensures LinearEulerPosture(s, e, 0.0) == s
    ensures LinearEulerPosture(s, e, 1.0) == e
  {
    assert LinearEulerPosture(s, e, 0.0).bones == s.bones;
    assert LinearEulerPosture(s, e, 1.0).bones == e.bones;
  }

  /** The same for Bezier interpolation of Euler angles, whatever the control
      points. */
  lemma {:induction false} BezierEulerEndpoints(split: Split, prev: Posture, s: Posture, e: Posture,
                                               next: Neighbour, u: Unloaded)
    requires SameShape(prev, s) && SameShape(s, e) && NeighbourShape(next, s)
    ensures BezierEulerPosture(0.0, split, prev, s, e, next, u) == s
    ensures BezierEulerPosture(1.0, split, prev, s, e, next, u) == e
  {
    var p0 := BezierEulerPosture(0.0, split, prev, s, e, next, u);
    var p1 := BezierEulerPosture(1.0, split, prev, s, e, next, u);
    Bezier.SegmentEndpoints(split.first, split.last, prev.root, s.root, e.root, NextRoot(next, u));
    forall b | 0 <= b < |s.bones|
      ensures p0.bones[b] == s.bones[b] && p1.bones[b] == e.bones[b]
    {
      Bezier.SegmentEndpoints(split.first, split.last, prev.bones[b], s.bones[b], e.bones[b], NextBone(next, u, b));
    }
    assert p0.bones == s.bones;
    assert p1.bones == e.bones;
  }

  /** For `0 <= t <= 1` a Bezier Euler posture keeps its root and every bone
      inside the box of that coordinate's four control points. */
  lemma {:induction false} BezierEulerPostureInHull(t: real, split: Split, prev: Posture, s: Posture, e: Posture,
                                                   next: Neighbour, u: Unloaded)
    requires SameShape(prev, s) && SameShape(s, e) && NeighbourShape(next, s)
    requires 0.0 <= t <= 1.0
    ensures var p := BezierEulerPosture(t, split, prev, s, e, next, u);
      && InHull(s.root, ControlA(split.first, prev.root, s.root, e.root, NextRoot(next, u)),
                ControlB(split.last, prev.root, s.root, e.root, NextRoot(next, u)), e.root, p.root)
      && forall b :: 0 <= b < |s.bones| ==>
           InHull(s.bones[b], ControlA(split.first, prev.bones[b], s.bones[b], e.bones[b], NextBone(next, u, b)),
                  ControlB(split.last, prev.bones[b], s.bones[b], e.bones[b], NextBone(next, u, b)),
                  e.bones[b], p.bones[b])
  {
    var p := BezierEulerPosture(t, split, prev, s, e, next, u);
    Bezier.SegmentIsBernstein(t, split.first, split.last, prev.root, s.root, e.root, NextRoot(next, u));
    forall b | 0 <= b < |s.bones|
      ensures InHull(s.bones[b], ControlA(split.first, prev.bones[b], s.bones[b], e.bones[b], NextBone(next, u, b)),
                     ControlB(split.last, prev.bones[b], s.bones[b], e.bones[b], NextBone(next, u, b)),
                     e.bones[b], p.bones[b])
    {
      Bezier.SegmentIsBernstein(t, split.first, split.last, prev.bones[b], s.bones[b], e.bones[b], NextBone(next, u, b));
    }
  }

  /** The linear quaternion curve of a bone starts at the start keyframe's
      rotation and ends at the end keyframe's rotation. */
  lemma LinearQuaternionEndpoints(k: Kit, a: Vec, b: Vec)
    requires Laws(k)
    ensures LinearQuaternionCurve(k, a, b, 0.0) == k.normalize(k.eulerToQuat(a))
    ensures SameRotation(k, LinearQuaternionCurve(k, a, b, 1.0), k.eulerToQuat(b))
  {
    var qa, qb := k.eulerToQuat(a), k.eulerToQuat(b);
    SlerpEndpoints(k, qa, qb);
    var nb := k.normalize(qb);
    assert k.normalize(nb) == nb;
    assert k.normalize(Neg4(nb)) == Neg4(nb);
    assert k.normalize(k.normalize(qa)) == k.normalize(qa);
  }

  /** `Slerp` changes the rotation neither of its start nor of its end
      argument: it only normalises them and possibly flips the sign of the end. */
  lemma SlerpKeepsRotations(k: Kit, t: real, x: Quat, y: Quat, p: Quat, q: Quat)
    requires Laws(k)
    requires SameRotation(k, x, p) || x == p
    requires SameRotation(k, y, q) || y == q
    ensures SameRotation(k, Slerp(k, t, x, y).start, p)
    ensures SameRotation(k, Slerp(k, t, x, y).end, q)
  {
    var np, nq := k.normalize(p), k.normalize(q);
    assert k.normalize(np) == np;
    assert k.normalize(Neg4(np)) == Neg4(np);
    assert k.normalize(nq) == nq;
    assert k.normalize(Neg4(nq)) == Neg4(nq);
    assert Neg4(Neg4(nq)) == nq;
  }

  /** The in-place effects of the control-point synthesis leave the start and
      end quaternions that feed De Casteljau representing the start and end
      keyframes' rotations. */
  lemma {:induction false} ControlsKeepEndRotations(k: Kit, split: Split, r: Rotations)
    requires Laws(k)
    ensures var a := OutgoingControl(k, split.first, r);
      var b := IncomingControl(k, split.last, a.after);
      SameRotation(k, b.after.r1, r.r1) && SameRotation(k, b.after.r2, r.r2)
  {
    var a := OutgoingControl(k, split.first, r);
    if split.first {
      var middle := Slerp(k, 2.0, r.r3, r.r2);
      SlerpKeepsRotations(k, 2.0, r.r3, r.r2, r.r3, r.r2);
      SlerpKeepsRotations(k, 1.0 / 3.0, r.r1, middle.value, r.r1, middle.value);
    } else {
      var middle := Slerp(k, 2.0, r.r0, r.r1);
      var aHat := Slerp(k, 0.5, middle.value, r.r2);
      SlerpKeepsRotations(k, 2.0, r.r0, r.r1, r.r0, r.r1);
      SlerpKeepsRotations(k, 0.5, middle.value, r.r2, middle.value, r.r2);
      SlerpKeepsRotations(k, 1.0 / 3.0, middle.end, aHat.value, r.r1, aHat.value);
    }
    assert SameRotation(k, a.after.r1, r.r1) && SameRotation(k, a.after.r2, r.r2);
    var s := a.after;
    if split.last {
      var middle := Slerp(k, 2.0, s.r0, s.r1);
      SlerpKeepsRotations(k, 2.0, s.r0, s.r1, s.r0, r.r1);
      SlerpKeepsRotations(k, 1.0 / 3.0, s.r2, middle.value, r.r2, middle.value);
    } else {
      var middle := Slerp(k, 2.0, s.r1, s.r2);
      var bHat := Slerp(k, 0.5, middle.value, s.r3);
      var discarded := Slerp(k, 1.0 / 3.0, middle.end, bHat.start);
      SlerpKeepsRotations(k, 2.0, s.r1, s.r2, r.r1, r.r2);
      SlerpKeepsRotations(k, 1.0 / 3.0, middle.end, bHat.start, r.r2, bHat.start);
      SlerpKeepsRotations(k, -1.0 / 3.0, discarded.start, bHat.value, r.r2, bHat.value);
    }
  }

  /** Rotations that agree up to normalisation and sign normalise to the same
      rotation up to sign. */
  lemma NormalizeSameRotation(k: Kit, q: Quat, p: Quat)
    requires Laws(k)
    requires SameRotation(k, q, p)
    ensures SameRotation(k, k.normalize(q), p)
  {
    var np := k.normalize(p);
    assert k.normalize(np) == np;
    assert k.normalize(Neg4(np)) == Neg4(np);
  }

  /** The quaternion Bezier curve of a bone starts at the start keyframe's
      rotation and ends at the end keyframe's rotation, in every case of the
      control-point split. */
  lemma {:induction false} BezierQuaternionEndpoints(k: Kit, split: Split, a0: Vec, a1: Vec, a2: Vec, r3: Quat)
    requires Laws(k)
    ensures SameRotation(k, BezierQuaternionCurve(k, 0.0, split, a0, a1, a2, r3), k.eulerToQuat(a1))
    ensures SameRotation(k, BezierQuaternionCurve(k, 1.0, split, a0, a1, a2, r3), k.eulerToQuat(a2))
  {
    var r := Rotations(k.eulerToQuat(a0), k.eulerToQuat(a1), k.eulerToQuat(a2), r3);
    var a := OutgoingControl(k, split.first, r);
    var b := IncomingControl(k, split.last, a.after);
    ControlsKeepEndRotations(k, split, r);
    DeCasteljauQuaternionEndpoints(k, b.after.r1, a.point, b.point, b.after.r2);
    NormalizeSameRotation(k, b.after.r1, r.r1);
    NormalizeSameRotation(k, b.after.r2, r.r2);
    var n2 := k.normalize(b.after.r2);
    var m2 := k.normalize(r.r2);
    assert n2 == m2 || n2 == Neg4(m2);
    assert Neg4(Neg4(m2)) == m2;
  }

  /** The quaternion curve of a segment that is the last one but not the
      first never uses the next keyframe's quaternion. */
  lemma LastSegmentIgnoresNextQuat(k: Kit, t: real, a0: Vec, a1: Vec, a2: Vec, x: Quat, y: Quat)
    ensures BezierQuaternionCurve(k, t, Split(false, true), a0, a1, a2, x)
         == BezierQuaternionCurve(k, t, Split(false, true), a0, a1, a2, y)
  {
  }
}
