/** Properties of the output motion of `Interpolator::Interpolate`, stated on
    the frame-by-frame definition the walk is proved to produce. */
module OutputProperties {
  import opened Maybe
  import opened Vectors
  import opened Quaternions
  import opened Segments
  import opened Postures
  import opened Configuration
  import opened Interpolation
  import BezierCurves = Bezier

  /** The `frame`-th frame of the `m`-th segment holds the routine's posture
      at `t = frame / (n + 1)`, strictly between 0 and 1, between the keyframes
      `m (n + 1)` and `(m + 1)(n + 1)`. */
  lemma {:induction false} InbetweenFramesAreBlends(r: Routine, test: LastTest, k: Kit, u: Unloaded, input: Motion, n: nat, m: nat, frame: nat)
    requires Uniform(input)
    requires Keyframe(m, n) + Stride(n) < |input|
    requires 1 <= frame <= n
    ensures Interpolated(r, test, k, u, input, n)[Keyframe(m, n) + frame]
      == Some(Inbetween(r, test, k, u, input, n, PreviousKeyframe(m, n), Keyframe(m, n), frame))
    ensures 0.0 < Param(frame, n) < 1.0
  {
    ReferenceInbetween(BlendOf(r, test, k, u, input, n), input, n, m, frame);
  }

  /** The frames past the last keyframe the walk reaches are copied from the input. */
  lemma {:induction false} TailIsCopied(r: Routine, test: LastTest, k: Kit, u: Unloaded, input: Motion, n: nat, i: nat)
    requires Uniform(input)
    requires LastKeyframe(|input|, n) < i < |input|
    ensures Interpolated(r, test, k, u, input, n)[i] == Some(input[i])
  {
    TailOfReference(BlendOf(r, test, k, u, input, n), input, n);
  }

  /** Which frames the walk writes: every frame but frame 0, and frame 0
      exactly when at least one segment fits. The per-frame write counts of
      `Walk` agree: a frame is written at least once exactly when it holds a
      posture, and twice exactly when it is a keyframe strictly inside the walk. */
  lemma {:induction false} WrittenFrames(r: Routine, test: LastTest, k: Kit, u: Unloaded, input: Motion, n: nat)
    requires Uniform(input)
    ensures forall i :: 0 < i < |input| ==> Interpolated(r, test, k, u, input, n)[i].Some?
    ensures 0 < |input| ==> (Interpolated(r, test, k, u, input, n)[0].None? <==> |input| <= Stride(n))
    ensures forall i :: 0 <= i < |input| ==>
      (WriteCount(|input|, n, i) == 0 <==> Interpolated(r, test, k, u, input, n)[i].None?)
    ensures forall i :: 0 <= i < |input| ==>
      (WriteCount(|input|, n, i) == 2 <==> 0 < i < LastKeyframe(|input|, n) && IsKeyframe(i, n))
  {
    var out := Interpolated(r, test, k, u, input, n);
    forall i | 0 <= i < |input|
      ensures i > 0 ==> out[i].Some?
      ensures WriteCount(|input|, n, i) == 0 <==> out[i].None?
    {
      ReferenceAt(BlendOf(r, test, k, u, input, n), input, n, i);
    }
  }

  /** With no frames skipped every frame is a keyframe, and the output is the
      input whenever it has at least two frames. */
  lemma {:induction false} NoSkipCopiesInput(r: Routine, test: LastTest, k: Kit, u: Unloaded, input: Motion)
    requires Uniform(input)
    requires 2 <= |input|
    ensures Interpolated(r, test, k, u, input, 0) == seq(|input|, i requires 0 <= i < |input| => Some(input[i]))
  {
    forall i | 0 <= i < |input|
      ensures Interpolated(r, test, k, u, input, 0)[i] == Some(input[i])
    {
      ReferenceAt(BlendOf(r, test, k, u, input, 0), input, 0, i);
    }
  }

  /** Linear interpolation of Euler angles puts the root and every angle of an
      in-between frame strictly between the values at the segment's two
      keyframes, coordinate by coordinate. */
  lemma {:induction false} LinearEulerStaysBetween(test: LastTest, k: Kit, u: Unloaded, input: Motion, n: nat, m: nat, frame: nat)
    requires Uniform(input)
    requires Keyframe(m, n) + Stride(n) < |input|
    requires 1 <= frame <= n
    ensures var s := input[Keyframe(m, n)];
      var e := input[Keyframe(m, n) + Stride(n)];
      var o := Interpolated(LinearEuler, test, k, u, input, n)[Keyframe(m, n) + frame];
      && o.Some?
      && StrictlyBetween(s.root, e.root, o.value.root)
      && |o.value.bones| == |s.bones| == |e.bones|
      && forall b :: 0 <= b < |s.bones| ==> StrictlyBetween(s.bones[b], e.bones[b], o.value.bones[b])
  {
    var start := Keyframe(m, n);
    var s, e := input[start], input[start + Stride(n)];
    var t := Param(frame, n);
    var p := LinearEulerPosture(s, e, t);
    InbetweenFramesAreBlends(LinearEuler, test, k, u, input, n, m, frame);
    assert Inbetween(LinearEuler, test, k, u, input, n, PreviousKeyframe(m, n), start, frame) == p;
    LerpStrictlyBetween(s.root, e.root, t);
    forall b | 0 <= b < |s.bones|
      ensures StrictlyBetween(s.bones[b], e.bones[b], p.bones[b])
    {
      LerpStrictlyBetween(s.bones[b], e.bones[b], t);
    }
  }

  /** Bezier interpolation of Euler angles keeps the root and every angle of
      an in-between frame inside the box of the segment's four control points:
      its two keyframes and the two synthesised points between them. */
  lemma {:induction false} BezierEulerStaysInHull(test: LastTest, k: Kit, u: Unloaded, input: Motion, n: nat, m: nat, frame: nat)
    requires Uniform(input)
    requires Keyframe(m, n) + Stride(n) < |input|
    requires 1 <= frame <= n
    ensures var start := Keyframe(m, n);
      var pv, s, e := input[PreviousKeyframe(m, n)], input[start], input[start + Stride(n)];
      var split := SplitBy(test, |input|, start, n);
      var next := NextOf(input, start, n);
      var o := Interpolated(BezierEuler, test, k, u, input, n)[start + frame];
      && o.Some?
      && BezierCurves.InHull(s.root, BezierCurves.ControlA(split.first, pv.root, s.root, e.root, NextRoot(next, u)),
                BezierCurves.ControlB(split.last, pv.root, s.root, e.root, NextRoot(next, u)), e.root, o.value.root)
      && |o.value.bones| == |s.bones|
      && forall b :: 0 <= b < |s.bones| ==>
           BezierCurves.InHull(s.bones[b], BezierCurves.ControlA(split.first, pv.bones[b], s.bones[b], e.bones[b], NextBone(next, u, b)),
                  BezierCurves.ControlB(split.last, pv.bones[b], s.bones[b], e.bones[b], NextBone(next, u, b)),
                  e.bones[b], o.value.bones[b])
  {
    var start := Keyframe(m, n);
    var pv, s, e := input[PreviousKeyframe(m, n)], input[start], input[start + Stride(n)];
    var split := SplitBy(test, |input|, start, n);
    var next := NextOf(input, start, n);
    BezierEulerFrame(test, k, u, input, n, m, frame);
    BezierEulerPostureInHull(Param(frame, n), split, pv, s, e, next, u);
  }

  /** An in-between frame of Bezier Euler interpolation is the Bezier Euler
      posture of its segment at `t = frame / (n + 1)`. */
  lemma {:induction false} BezierEulerFrame(test: LastTest, k: Kit, u: Unloaded, input: Motion, n: nat, m: nat, frame: nat)
    requires Uniform(input)
    requires Keyframe(m, n) + Stride(n) < |input|
    requires 1 <= frame <= n
    ensures var start := Keyframe(m, n);
      Interpolated(BezierEuler, test, k, u, input, n)[start + frame]
      == Some(BezierEulerPosture(Param(frame, n), SplitBy(test, |input|, start, n), input[PreviousKeyframe(m, n)],
                                 input[start], input[start + Stride(n)], NextOf(input, start, n), u))
  {
    InbetweenFramesAreBlends(BezierEuler, test, k, u, input, n, m, frame);
  }

  /** The root positions of an output motion. */
  function Roots(out: Output): (roots: seq<Option<Vec>>)
    ensures |roots| == |out|
  {
    seq(|out|, i requires 0 <= i < |out| => if out[i].Some? then Some(out[i].value.root) else None)
  }

  /** The angle representation does not affect the root: the quaternion
      routines move the root exactly as their Euler counterparts. */
  lemma {:induction false} RootIndependentOfAngleRepresentation(test: LastTest, k: Kit, u: Unloaded, input: Motion, n: nat)
    requires Uniform(input)
    ensures Roots(Interpolated(LinearQuaternion, test, k, u, input, n)) == Roots(Interpolated(LinearEuler, test, k, u, input, n))
    ensures Roots(Interpolated(BezierQuaternion, test, k, u, input, n)) == Roots(Interpolated(BezierEuler, test, k, u, input, n))
  {
    forall i | 0 <= i < |input|
      ensures Roots(Interpolated(LinearQuaternion, test, k, u, input, n))[i] == Roots(Interpolated(LinearEuler, test, k, u, input, n))[i]
      ensures Roots(Interpolated(BezierQuaternion, test, k, u, input, n))[i] == Roots(Interpolated(BezierEuler, test, k, u, input, n))[i]
    {
      ReferenceAt(BlendOf(LinearQuaternion, test, k, u, input, n), input, n, i);
      ReferenceAt(BlendOf(LinearEuler, test, k, u, input, n), input, n, i);
      ReferenceAt(BlendOf(BezierQuaternion, test, k, u, input, n), input, n, i);
      ReferenceAt(BlendOf(BezierEuler, test, k, u, input, n), input, n, i);
    }
  }

  /** A Bezier Euler posture does not depend on the unloaded values when the
      next keyframe is loaded or the segment is a last one past the first. */
  lemma {:induction false} BezierEulerIgnoresUnloaded(t: real, split: Split, prev: Posture, s: Posture, e: Posture,
                                                     next: Neighbour, u1: Unloaded, u2: Unloaded)
    requires SameShape(prev, s) && SameShape(s, e) && NeighbourShape(next, s)
    requires next.Loaded? || split == Split(false, true)
    ensures BezierEulerPosture(t, split, prev, s, e, next, u1) == BezierEulerPosture(t, split, prev, s, e, next, u2)
  {
    var p1 := BezierEulerPosture(t, split, prev, s, e, next, u1);
    var p2 := BezierEulerPosture(t, split, prev, s, e, next, u2);
    if !next.Loaded? {
      BezierCurves.LastSegmentIgnoresNext(t, prev.root, s.root, e.root, u1.root, u2.root);
    }
    assert p1.root == p2.root;
    forall b | 0 <= b < |s.bones|
      ensures p1.bones[b] == p2.bones[b]
    {
      if !next.Loaded? {
        BezierCurves.LastSegmentIgnoresNext(t, prev.bones[b], s.bones[b], e.bones[b], u1.bone(b), u2.bone(b));
      }
    }
    assert p1.bones == p2.bones;
  }

  /** One bone of a Bezier quaternion posture does not depend on the
      unloaded values under the same condition. */
  lemma {:induction false} BezierQuaternionBoneIgnoresUnloaded(k: Kit, t: real, split: Split, a0: Vec, a1: Vec, a2: Vec,
                                                              next: Neighbour, u1: Unloaded, u2: Unloaded, b: nat)
    requires next.Loaded? ==> b < |next.posture.bones|
    requires next.Loaded? || split == Split(false, true)
    ensures BezierQuaternionCurve(k, t, split, a0, a1, a2, NextBoneQuat(k, next, u1, b))
         == BezierQuaternionCurve(k, t, split, a0, a1, a2, NextBoneQuat(k, next, u2, b))
  {
    if next.Loaded? {
      assert NextBoneQuat(k, next, u1, b) == NextBoneQuat(k, next, u2, b);
    } else {
      LastSegmentIgnoresNextQuat(k, t, a0, a1, a2, u1.quat(b), u2.quat(b));
    }
  }

  /** The same for a whole Bezier quaternion posture. */
  lemma {:induction false} BezierQuaternionIgnoresUnloaded(k: Kit, t: real, split: Split, prev: Posture, s: Posture, e: Posture,
                                                          next: Neighbour, u1: Unloaded, u2: Unloaded)
    requires SameShape(prev, s) && SameShape(s, e) && NeighbourShape(next, s)
    requires next.Loaded? || split == Split(false, true)
    ensures BezierQuaternionPosture(k, t, split, prev, s, e, next, u1) == BezierQuaternionPosture(k, t, split, prev, s, e, next, u2)
  {
    var p1 := BezierQuaternionPosture(k, t, split, prev, s, e, next, u1);
    var p2 := BezierQuaternionPosture(k, t, split, prev, s, e, next, u2);
    if next.Loaded? {
      assert NextRoot(next, u1) == NextRoot(next, u2);
    } else {
      BezierCurves.LastSegmentIgnoresNext(t, prev.root, s.root, e.root, u1.root, u2.root);
    }
    assert p1.root == p2.root;
    forall b | 0 <= b < |s.bones|
      ensures p1.bones[b] == p2.bones[b]
    {
      BezierQuaternionBoneIgnoresUnloaded(k, t, split, prev.bones[b], s.bones[b], e.bones[b], next, u1, u2, b);
    }
    assert p1.bones == p2.bones;
  }

  /** A segment that does not read the next keyframe when it is missing
      computes the same postures whatever the unloaded values are. */
  lemma {:induction false} InbetweenIgnoresUnloaded(r: Routine, test: LastTest, k: Kit, u1: Unloaded, u2: Unloaded, input: Motion, n: nat,
                                                   prev: nat, start: nat, frame: nat)
    requires Uniform(input)
    requires prev <= start && start + Stride(n) < |input|
    requires 1 <= frame <= n
    requires !ReadsUnloaded(SplitBy(test, |input|, start, n), |input|, start, n)
    ensures Inbetween(r, test, k, u1, input, n, prev, start, frame) == Inbetween(r, test, k, u2, input, n, prev, start, frame)
  {
    var t := Param(frame, n);
    var s, e, pv := input[start], input[start + Stride(n)], input[prev];
    var split := SplitBy(test, |input|, start, n);
    var next := NextOf(input, start, n);
    match r
    case LinearEuler =>
    case LinearQuaternion =>
    case BezierEuler =>
      BezierEulerIgnoresUnloaded(t, split, pv, s, e, next, u1, u2);
    case BezierQuaternion =>
      BezierQuaternionIgnoresUnloaded(k, t, split, pv, s, e, next, u1, u2);
  }

  /** One output frame does not depend on the unloaded values under the
      condition of `UnloadedIsIrrelevant`. */
  lemma {:induction false} FrameIgnoresUnloaded(r: Routine, test: LastTest, k: Kit, u1: Unloaded, u2: Unloaded,
                                               input: Motion, n: nat, i: nat)
    requires Uniform(input) && i < |input|
    requires n == 0 || |input| <= Stride(n)
             || (2 * Stride(n) < |input| && (test == Corrected || |input| % Stride(n) != 0))
    ensures Expected(BlendOf(r, test, k, u1, input, n), input, n, i) == Expected(BlendOf(r, test, k, u2, input, n), input, n, i)
  {
    var role := RoleOf(|input|, n, i);
    if role.Between? {
      var m := role.segment;
      NoSegmentReadsUnloadedExactly(test, |input|, n);
      InbetweenIgnoresUnloaded(r, test, k, u1, u2, input, n, PreviousKeyframe(m, n), Keyframe(m, n), role.offset);
    }
  }

  /** The values of a next keyframe that was never loaded cannot reach the
      output when no frame is skipped, when no segment fits, or when more
      than one segment fits and the last one the walk processes does not read them;
      as written, that last condition fails exactly when the frame count is a
      multiple of the stride (`NoSegmentReadsUnloadedExactly`,
      `AsWrittenSixFramesOutput`). */
  lemma {:induction false} UnloadedIsIrrelevant(r: Routine, test: LastTest, k: Kit, u1: Unloaded, u2: Unloaded,
                                               input: Motion, n: nat)
    requires Uniform(input)
    requires n == 0 || |input| <= Stride(n)
             || (2 * Stride(n) < |input| && (test == Corrected || |input| % Stride(n) != 0))
    ensures Interpolated(r, test, k, u1, input, n) == Interpolated(r, test, k, u2, input, n)
  {
    forall i | 0 <= i < |input|
      ensures Interpolated(r, test, k, u1, input, n)[i] == Interpolated(r, test, k, u2, input, n)[i]
    {
      ReferenceAt(BlendOf(r, test, k, u1, input, n), input, n, i);
      ReferenceAt(BlendOf(r, test, k, u2, input, n), input, n, i);
      FrameIgnoresUnloaded(r, test, k, u1, u2, input, n, i);
    }
  }

  /** Six frames with one frame skipped, all of them the same bone-less
      posture at the origin: as written, the segment 2..4 is not treated as
      the last one, so frame 3 is pulled towards the unloaded root, by a
      sixteenth of it the other way (with root (6, 0, 0), to x = -3/8). */
  lemma {:induction false} AsWrittenSixFramesOutput(k: Kit, u: Unloaded)
    ensures var input := seq(6, i => Posture(Zero, []));
      Interpolated(BezierEuler, AsWritten, k, u, input, 1)[3]
      == Some(Posture(Scale(u.root, -1.0 / 16.0), []))
  {
    var input := seq(6, i => Posture(Zero, []));
    assert Keyframe(1, 1) == 2 && PreviousKeyframe(1, 1) == 0;
    InbetweenFramesAreBlends(BezierEuler, AsWritten, k, u, input, 1, 1, 1);
    var p := Inbetween(BezierEuler, AsWritten, k, u, input, 1, 0, 2, 1);
    assert p.root == BezierCurves.Segment(0.5, false, false, Zero, Zero, Zero, u.root);
  }

  /** The same six frames under the corrected test: the segment 2..4 is the
      last one and frame 3 stays at the origin whatever the unloaded values. */
  lemma {:induction false} CorrectedSixFramesOutput(k: Kit, u: Unloaded)
    ensures var input := seq(6, i => Posture(Zero, []));
      Interpolated(BezierEuler, Corrected, k, u, input, 1)[3] == Some(Posture(Zero, []))
  {
    var input := seq(6, i => Posture(Zero, []));
    assert Keyframe(1, 1) == 2 && PreviousKeyframe(1, 1) == 0;
    InbetweenFramesAreBlends(BezierEuler, Corrected, k, u, input, 1, 1, 1);
    var p := Inbetween(BezierEuler, Corrected, k, u, input, 1, 0, 2, 1);
    assert p.root == BezierCurves.Segment(0.5, false, true, Zero, Zero, Zero, u.root);
  }

  /** Ten frames with two frames skipped: the walk stops at keyframe 9, so
      the keyframes 0, 3, 6 and 9 are copied with nothing left to copy after
      them; the keyframes 3 and 6 are written twice, 0 and 9 once. */
  lemma {:induction false} TenFramesKeyframes(r: Routine, test: LastTest, k: Kit, u: Unloaded, input: Motion)
    requires Uniform(input) && |input| == 10
    ensures LastKeyframe(10, 2) == 9
    ensures var out := Interpolated(r, test, k, u, input, 2);
      && out[0] == Some(input[0]) && out[3] == Some(input[3])
      && out[6] == Some(input[6]) && out[9] == Some(input[9])
    ensures WriteCount(10, 2, 0) == 1 && WriteCount(10, 2, 3) == 2
    ensures WriteCount(10, 2, 6) == 2 && WriteCount(10, 2, 9) == 1
  {
    LastKeyframeIsWhereWalkStops(10, 2, 3);
    KeyframesAreCopied(BlendOf(r, test, k, u, input, 2), input, 2, 0);
    KeyframesAreCopied(BlendOf(r, test, k, u, input, 2), input, 2, 1);
    KeyframesAreCopied(BlendOf(r, test, k, u, input, 2), input, 2, 2);
    KeyframesAreCopied(BlendOf(r, test, k, u, input, 2), input, 2, 3);
    KeyframesAreKeyframes(1, 2, 0);
    KeyframesAreKeyframes(2, 2, 0);
  }

  /** Ten frames with two frames skipped: frames 1 and 2 are the in-between
      postures of the first segment, at t = 1/3 and t = 2/3 (`TenFramesParams`),
      with the first keyframe standing in for the previous one. */
  lemma {:induction false} TenFramesFirstSegment(r: Routine, test: LastTest, k: Kit, u: Unloaded, input: Motion)
    requires Uniform(input) && |input| == 10
    ensures var out := Interpolated(r, test, k, u, input, 2);
      && out[1] == Some(Inbetween(r, test, k, u, input, 2, 0, 0, 1))
      && out[2] == Some(Inbetween(r, test, k, u, input, 2, 0, 0, 2))
  {
    InbetweenFramesAreBlends(r, test, k, u, input, 2, 0, 1);
    InbetweenFramesAreBlends(r, test, k, u, input, 2, 0, 2);
  }

  /** Frames 4 and 5 are the in-between postures of the second segment, whose
      previous keyframe is frame 0. */
  lemma {:induction false} TenFramesSecondSegment(r: Routine, test: LastTest, k: Kit, u: Unloaded, input: Motion)
    requires Uniform(input) && |input| == 10
    ensures var out := Interpolated(r, test, k, u, input, 2);
      && out[4] == Some(Inbetween(r, test, k, u, input, 2, 0, 3, 1))
      && out[5] == Some(Inbetween(r, test, k, u, input, 2, 0, 3, 2))
  {
    assert Keyframe(1, 2) == 3 && PreviousKeyframe(1, 2) == 0;
    InbetweenFramesAreBlends(r, test, k, u, input, 2, 1, 1);
    InbetweenFramesAreBlends(r, test, k, u, input, 2, 1, 2);
  }

  /** Frames 7 and 8 are the in-between postures of the third and last
      segment, whose previous keyframe is frame 3. */
  lemma {:induction false} TenFramesThirdSegment(r: Routine, test: LastTest, k: Kit, u: Unloaded, input: Motion)
    requires Uniform(input) && |input| == 10
    ensures var out := Interpolated(r, test, k, u, input, 2);
      && out[7] == Some(Inbetween(r, test, k, u, input, 2, 3, 6, 1))
      && out[8] == Some(Inbetween(r, test, k, u, input, 2, 3, 6, 2))
  {
    assert Keyframe(2, 2) == 6 && PreviousKeyframe(2, 2) == 3;
    InbetweenFramesAreBlends(r, test, k, u, input, 2, 2, 1);
    InbetweenFramesAreBlends(r, test, k, u, input, 2, 2, 2);
  }

  /** With two frames skipped the in-between frames sit at t = 1/3 and t = 2/3. */
  lemma TenFramesParams()
    ensures Param(1, 2) == 1.0 / 3.0 && Param(2, 2) == 2.0 / 3.0
  {
  }
}
