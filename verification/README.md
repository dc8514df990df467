# Keyframe interpolation of mocapPlayer, in Dafny

This project models the keyframe interpolation engine of mocapPlayer, the class
`Interpolator` in `mocapPlayer-starter/interpolator.cpp` and
`mocapPlayer-starter/interpolator.h`, together with the 3-vector algebra of
`mocapPlayer-starter/vector.cpp` it is built on. All arithmetic is over Dafny's
`real`.

Given an input motion of F postures and a skip count N, `Interpolate` picks one
of four routines from the interpolation type (linear or Bezier) and the angle
representation (Euler or quaternion). All four share one segment walk:
- keyframes lie N + 1 frames apart, starting at frame 0;
- for every segment `start .. start + N + 1` that fits inside the input, both
  keyframes are copied, and the N frames between them get the routine's posture
  at `t = frame / (N + 1)`;
- after the walk, the frames past the last keyframe are copied.

The routines differ only in that in-between posture:
- linear blending of the root and of the Euler triples;
- linear root blending with `Slerp` on bone quaternions;
- a cubic Bezier segment per coordinate, whose inner control points come from
  the previous and next keyframes;
- the same root curve, with a quaternion Bezier curve per bone evaluated by
  `Slerp`-based De Casteljau.

Layout, one module per file:
- `maybe.dfy` (`Maybe`): the option type.
- `vector.dfy` (`Vectors`): the operators of vector.cpp and the linear blend.
- `quaternion.dfy` (`Quaternions`): `Slerp`, with its side effects on its
  by-reference arguments, and `DeCasteljauQuaternion`.
- `bezier.dfy` (`Bezier`): `DeCasteljauEuler` and the first / interior / last
  control-point synthesis.
- `postures.dfy` (`Postures`): postures, motions and the in-between posture of
  each routine.
- `config.dfy` (`Configuration`): the two enumerations, the setters and the
  dispatch.
- `segments.dfy` (`Segments`): keyframe index arithmetic, and the role each
  frame plays in the walk.
- `interpolator.dfy` (`Interpolation`): the walk as a method with loop
  invariants.
  - The walk is proved to produce a frame-by-frame definition of the output
    (`Interpolated`).
  - It also produces a log of every `SetPosture` index with proved
    multiplicities.
- `properties.dfy` (`OutputProperties`): properties of the output motion.

The trigonometric and square-root parts are the four function-valued fields of
a `Kit`:
- normalisation;
- the spherical branch of `Slerp`;
- `Euler2Quaternion`;
- `Quaternion2Euler`.

Every result holds for every choice of these functions. The endpoint laws of the
quaternion curves assume only the laws collected in `Quaternions.Laws`: exact
normalisation, and arcs that start and end at their endpoints.

Frames of the output that the routine never writes are `None`.

The Bezier routines sometimes read a next keyframe they never loaded, a
default-constructed local in the code. The values they read are a parameter
(`Unloaded`), so every statement holds whatever those values are.
`OutputProperties.UnloadedIsIrrelevant` shows when they cannot matter.

The Bezier control points depend on a test for the last segment. The code
tests `thirdKeyframe > inputLength`. The model takes that test as a parameter,
`Segments.LastTest`:
- `AsWritten` is the code's test. `Interpolation.Interpolate` uses it.
- `Corrected` is `>=`, the test the code evidently intends (see "## Findings").
- Every statement about the output holds under both tests unless it names one.

The model follows the code even where it differs from the intended behaviour:
- With the code's test and N ≥ 1, a walk whose frame count F is a multiple of
  N + 1, with F ≥ 2(N + 1), reads the unloaded values in its last segment. Those
  values then reach the output (`OutputProperties.AsWrittenSixFramesOutput`).
- Not every output frame is written exactly once:
  - A keyframe strictly between frame 0 and the last keyframe is written
    twice, as the end of one segment and the start of the next. Both writes
    store the same input posture.
  - When F ≤ N + 1 the walk processes no segment and the tail copy starts at
    frame 1, so frame 0 is never written.
  - `Interpolation.WriteCount` states the exact count.
  - `Interpolation.Walk` proves that the log of writes has exactly those
    multiplicities.
- With N = 0 the output equals the input when F ≥ 2, and trivially when
  F = 0. For F = 1, frame 0 stays unwritten.

## Model

| member | source | states |
|---|---|---|
| Vectors.Add | mocapPlayer-starter/vector.cpp:25-34 | component-wise sum; `AddSubCancel` states that `Sub` undoes it |
| Vectors.Sub | mocapPlayer-starter/vector.cpp:14-23 | component-wise difference; `AddSubCancel` states that `Add` undoes it and that it is zero exactly for equal operands |
| Vectors.Scale | mocapPlayer-starter/vector.cpp:48-57 | component-wise scaling; `ScaleDivCancel` states that `Div` undoes it |
| Vectors.Dot | mocapPlayer-starter/vector.cpp:71-75 | the dot product; `DotCommutative` and `DotBilinear` state its laws |
| Vectors.Lerp | mocapPlayer-starter/interpolator.cpp:74-78 | the blend `a * (1 - t) + b * t`; `LerpEndpoints`, `LerpMovesFraction` and `LerpStrictlyBetween` state its meaning |
| Vectors.Div | mocapPlayer-starter/vector.cpp:36-45 | for a non-zero divisor, scaling the quotient by the divisor gives back the dividend |
| Vectors.Cross | mocapPlayer-starter/vector.cpp:59-69 | the cross product is orthogonal (zero dot product) to each of its arguments |
| Vectors.AddSubCancel | mocapPlayer-starter/vector.cpp:14-34 | `(a + b) - b == a` and `(a - b) + b == a`; a difference is the zero vector exactly when the operands are equal |
| Vectors.ScaleDivCancel | mocapPlayer-starter/vector.cpp:36-57 | for `s != 0`, dividing `a * s` by `s` gives `a` back |
| Vectors.CrossAntiCommutative | mocapPlayer-starter/vector.cpp:59-69 | `a * b == -(b * a)` and `a * a` is the zero vector |
| Vectors.DotCommutative | mocapPlayer-starter/vector.cpp:71-75 | the dot product is symmetric |
| Vectors.DotBilinear | mocapPlayer-starter/vector.cpp:71-75 | the dot product distributes over vector sums and pulls out a scalar factor, in both arguments |
| Vectors.LerpEndpoints | mocapPlayer-starter/interpolator.cpp:74-78 | the blend `a * (1 - t) + b * t` is `a` at t = 0 and `b` at t = 1 |
| Vectors.LerpMovesFraction | mocapPlayer-starter/interpolator.cpp:74-78 | the blend moves from `a` by exactly the fraction `t` of `b - a` |
| Vectors.LerpStrictlyBetween | mocapPlayer-starter/interpolator.cpp:74-78 | for 0 < t < 1 every component of the blend lies strictly between the two components, or equals them when they coincide |
| Quaternions.Neg4Flips | mocapPlayer-starter/interpolator.cpp:556-560 | the sign flip is an involution and negates the dot product with any quaternion |
| Quaternions.Lerp4Endpoints | mocapPlayer-starter/interpolator.cpp:546-555 | the near-parallel fallback blend is the start at t = 0 and the end at t = 1 |
| Quaternions.Dot4 | mocapPlayer-starter/interpolator.cpp:545 | the four-component dot product that `Slerp` compares against the threshold; `Neg4Flips` states how the flip changes it |
| Quaternions.Neg4 | mocapPlayer-starter/interpolator.cpp:556-560 | the sign flip of the end quaternion; `Neg4Flips` states it is an involution that negates dot products |
| Quaternions.Lerp4 | mocapPlayer-starter/interpolator.cpp:546-555 | the near-parallel component-wise blend; `Lerp4Endpoints` states its endpoints |
| Quaternions.Slerp | mocapPlayer-starter/interpolator.cpp:536-573 | computes `Slerp` and returns the result together with both by-reference arguments as the call leaves them; `SlerpSideEffects` and `SlerpEndpoints` state what it does |
| Quaternions.DeCasteljauQuaternion | mocapPlayer-starter/interpolator.cpp:605-618 | the six `Slerp` calls of the quaternion De Casteljau triangle, each seeing its arguments as earlier calls left them; `DeCasteljauQuaternionEndpoints` states its endpoints |
| Quaternions.SlerpSideEffects | mocapPlayer-starter/interpolator.cpp:536-573 | after a call both by-reference arguments are normalised, the end possibly negated, they have non-negative dot product, and above the threshold the result is the normalised linear blend |
| Quaternions.NearlyOppositeSkipsFallback | mocapPlayer-starter/interpolator.cpp:546-560 | for nearly opposite inputs the end is negated and the pair ends up above the threshold, yet the spherical branch is taken |
| Quaternions.SlerpEndpoints | mocapPlayer-starter/interpolator.cpp:536-573 | under exact normalisation `Slerp` at t = 0 is the normalised start and at t = 1 the end it leaves behind |
| Quaternions.DeCasteljauQuaternionEndpoints | mocapPlayer-starter/interpolator.cpp:605-618 | the quaternion De Casteljau curve starts at its normalised first control point and ends at its last one up to sign |
| Bezier.DeCasteljauEuler | mocapPlayer-starter/interpolator.cpp:588-603 | the three rounds of pairwise blending on vectors; `DeCasteljauIsBernstein` and `DeCasteljauInHull` state what they compute |
| Bezier.ControlA | mocapPlayer-starter/interpolator.cpp:183-193 | the outgoing control point, from the next keyframe in the first segment and from the previous keyframe otherwise; `ControlPointsClosedForm` gives its closed form |
| Bezier.ControlB | mocapPlayer-starter/interpolator.cpp:194-204 | the incoming control point, from the previous keyframe in a last segment and from the next keyframe otherwise; `ControlPointsClosedForm` gives its closed form |
| Bezier.Segment | mocapPlayer-starter/interpolator.cpp:183-205 | De Casteljau on a segment's keyframes and synthesised control points; `SegmentIsBernstein` and `SegmentEndpoints` state its meaning |
| Bezier.DeCasteljauIsBernstein | mocapPlayer-starter/interpolator.cpp:588-603 | the three rounds of blending equal the cubic Bernstein polynomial of the four points, giving `p0` at t = 0 and `p3` at t = 1 |
| Bezier.DeCasteljauInHull | mocapPlayer-starter/interpolator.cpp:588-603 | for 0 ≤ t ≤ 1 each component of the evaluated point lies between the minimum and maximum of the control points' components |
| Bezier.ControlPointsClosedForm | mocapPlayer-starter/interpolator.cpp:183-204 | interior control points are the Catmull-Rom points `s + (e - prev)/6` and `e - (next - s)/6`; in the first and last segment the missing neighbour is replaced by a reflection |
| Bezier.SegmentIsBernstein | mocapPlayer-starter/interpolator.cpp:183-205 | a segment is the Bernstein cubic of its keyframes and synthesised control points, and stays in their box for 0 ≤ t ≤ 1 |
| Bezier.JunctionIsSmooth | mocapPlayer-starter/interpolator.cpp:183-204 | at a shared interior keyframe the incoming and outgoing control points are symmetric about it (tangent continuity) |
| Bezier.LastSegmentIgnoresNext | mocapPlayer-starter/interpolator.cpp:194-198 | a last segment that is not the first does not depend on the next keyframe |
| Bezier.SegmentEndpoints | mocapPlayer-starter/interpolator.cpp:183-205 | every segment starts at its start keyframe and ends at its end keyframe, in all cases of the split |
| Postures.LinearEulerPosture | mocapPlayer-starter/interpolator.cpp:68-80 | has the shape of its keyframes; `LinearEulerEndpoints` and `OutputProperties.LinearEulerStaysBetween` state its values |
| Postures.NextRoot | mocapPlayer-starter/interpolator.cpp:181-182 | the next keyframe's root as the code reads it, the unloaded value when it was not loaded; `OutputProperties.BezierEulerIgnoresUnloaded` states when that cannot matter |
| Postures.NextBone | mocapPlayer-starter/interpolator.cpp:216-219 | the next keyframe's bone triple as the code reads it, or the unloaded value; `OutputProperties.BezierEulerIgnoresUnloaded` states when that cannot matter |
| Postures.NextBoneQuat | mocapPlayer-starter/interpolator.cpp:455-461 | the next keyframe's bone quaternion as the code reads it, or the unloaded value; `OutputProperties.BezierQuaternionBoneIgnoresUnloaded` states when that cannot matter |
| Postures.LinearQuaternionCurve | mocapPlayer-starter/interpolator.cpp:310-333 | one bone's `Slerp` between the keyframe quaternions, normalised; `LinearQuaternionEndpoints` states its endpoints |
| Postures.LinearQuaternionPosture | mocapPlayer-starter/interpolator.cpp:299-335 | has the shape of its keyframes, with the linear root and a `Slerp` per bone; `LinearQuaternionEndpoints` states its endpoints |
| Postures.BezierEulerPosture | mocapPlayer-starter/interpolator.cpp:171-248 | has the shape of its keyframes, with a Bezier segment per coordinate; `BezierEulerEndpoints` and `BezierEulerPostureInHull` state its values |
| Postures.OutgoingControl | mocapPlayer-starter/interpolator.cpp:463-475 | the quaternion control point `a` and the keyframe quaternions as its `Slerp` calls leave them; `ControlsKeepEndRotations` states what it keeps |
| Postures.IncomingControl | mocapPlayer-starter/interpolator.cpp:476-487 | the quaternion control point `b` (with the discarded `an_` call) and the keyframe quaternions as its `Slerp` calls leave them; `ControlsKeepEndRotations` states what it keeps |
| Postures.BezierQuaternionCurve | mocapPlayer-starter/interpolator.cpp:442-488 | one bone's quaternion Bezier curve from the synthesised control points; `BezierQuaternionEndpoints` states its endpoints |
| Postures.BezierQuaternionPosture | mocapPlayer-starter/interpolator.cpp:386-493 | has the shape of its keyframes, with the Bezier root and a quaternion Bezier curve per bone; `BezierQuaternionEndpoints` states its endpoints |
| Postures.LinearEulerEndpoints | mocapPlayer-starter/interpolator.cpp:74-78 | the linear Euler posture is the start keyframe at t = 0 and the end keyframe at t = 1, root and bones |
| Postures.BezierEulerEndpoints | mocapPlayer-starter/interpolator.cpp:176-245 | the Bezier Euler posture is the start keyframe at t = 0 and the end keyframe at t = 1 |
| Postures.BezierEulerPostureInHull | mocapPlayer-starter/interpolator.cpp:176-245 | for 0 ≤ t ≤ 1 root and every bone triple lie in the box of their four control points |
| Postures.LinearQuaternionEndpoints | mocapPlayer-starter/interpolator.cpp:310-333 | the linear quaternion curve of a bone starts at the start keyframe's rotation and ends at the end keyframe's rotation (up to sign) |
| Postures.SlerpKeepsRotations | mocapPlayer-starter/interpolator.cpp:543-560 | `Slerp`'s in-place normalisation and sign flip do not change the rotation its arguments represent |
| Postures.ControlsKeepEndRotations | mocapPlayer-starter/interpolator.cpp:462-487 | after the control-point synthesis the start and end quaternions that feed De Casteljau still represent the keyframe rotations |
| Postures.BezierQuaternionEndpoints | mocapPlayer-starter/interpolator.cpp:425-493 | the quaternion Bezier curve of a bone starts at the start keyframe's rotation and ends at the end keyframe's, in every case of the split |
| Postures.LastSegmentIgnoresNextQuat | mocapPlayer-starter/interpolator.cpp:476-480 | a last segment that is not the first does not depend on the next keyframe's quaternion |
| Configuration.NewInterpolator | mocapPlayer-starter/interpolator.cpp:12-19 | the constructor's defaults; `SettersReachEveryRoutine` states that they select linear Euler |
| Configuration.InterpolationTypeOf | mocapPlayer-starter/interpolator.h:17-20 | an integer names an interpolation type exactly when it is 0 or 1, and decodes to the enumerator with that value |
| Configuration.AngleRepresentationOf | mocapPlayer-starter/interpolator.h:22-25 | an integer names an angle representation exactly when it is 0 or 1, and decodes to the enumerator with that value |
| Configuration.EnumerationsAreTwoValued | mocapPlayer-starter/interpolator.h:17-25 | each enumeration has exactly two enumerators with distinct values, and encoding then decoding is the identity |
| Configuration.SetInterpolationType | mocapPlayer-starter/interpolator.h:35 | the setter sets the interpolation type and leaves the angle representation unchanged |
| Configuration.SetAngleRepresentation | mocapPlayer-starter/interpolator.h:37 | the setter sets the angle representation and leaves the interpolation type unchanged |
| Configuration.Dispatch | mocapPlayer-starter/interpolator.cpp:32-44 | each of the four valid pairs selects its own routine, and exactly the other pairs take the error exit; `DispatchIsExhaustive` ties it to the independent `RoutineOf` |
| Configuration.DispatchIsExhaustive | mocapPlayer-starter/interpolator.cpp:32-44 | every configuration dispatches to its routine (the error exit is unreachable), distinct configurations run distinct routines, and every routine is reachable |
| Configuration.SettersReachEveryRoutine | mocapPlayer-starter/interpolator.cpp:12-19 | a fresh interpolator runs linear Euler, and the two setters reach any routine from any state |
| Segments.Keyframe | mocapPlayer-starter/interpolator.cpp:152-157 | the m-th keyframe the walk visits; `KeyframeIsMultiple` states it is `m (N + 1)` |
| Segments.NextKeyframe | mocapPlayer-starter/interpolator.cpp:158 | `thirdKeyframe`, two strides after the start; `AsWrittenReadsUnloadedExactly` states what the split does with it |
| Segments.HasNext | mocapPlayer-starter/interpolator.cpp:164 | whether the next keyframe's posture is loaded; `NoSegmentReadsUnloadedExactly` states when a missing one is read |
| Segments.KeyframeMonotone | mocapPlayer-starter/interpolator.cpp:55-84 | later keyframes lie at least one stride further on |
| Segments.SegmentOf | mocapPlayer-starter/interpolator.cpp:55-84 | every frame lies in the segment of the keyframe at or before it, less than a stride away |
| Segments.SegmentUnique | mocapPlayer-starter/interpolator.cpp:68-80 | a frame lies in exactly one segment, so no in-between frame belongs to two segments |
| Segments.KeyframesAreKeyframes | mocapPlayer-starter/interpolator.cpp:55-84 | within a segment only the offset-0 frame is a keyframe |
| Segments.KeyframeIsMultiple | mocapPlayer-starter/interpolator.cpp:55-84 | the m-th keyframe is `m (N + 1)` |
| Segments.SegmentIsQuotient | mocapPlayer-starter/interpolator.cpp:55-84 | a frame's segment and offset are its quotient and remainder by N + 1; keyframes are exactly the multiples of N + 1 |
| Segments.LastKeyframe | mocapPlayer-starter/interpolator.cpp:55-87 | the walk stops at a keyframe below F with F at most a stride past it, and at frame 0 exactly when F ≤ N + 1 |
| Segments.LastKeyframeIsWhereWalkStops | mocapPlayer-starter/interpolator.cpp:55-84 | the keyframe at which the loop condition first fails is the last keyframe |
| Segments.BeforeLastKeyframe | mocapPlayer-starter/interpolator.cpp:55-84 | every segment the walk processes ends at or before the last keyframe |
| Segments.RoleOf | mocapPlayer-starter/interpolator.cpp:55-87 | a frame is unwritten exactly when it is frame 0 and F ≤ N + 1; an in-between frame lies at offset 1..N of a segment that fits |
| Segments.RoleOfClosedForm | mocapPlayer-starter/interpolator.cpp:55-87 | unwritten, copied (keyframes and frames from the last keyframe on) or in-between at its segment offset, in closed form |
| Segments.KeyframeRole | mocapPlayer-starter/interpolator.cpp:63-65 | every keyframe the walk reaches is a copy of the input |
| Segments.EndKeyframeRole | mocapPlayer-starter/interpolator.cpp:65 | the end keyframe of every processed segment is a copy |
| Segments.InbetweenRole | mocapPlayer-starter/interpolator.cpp:68-80 | the N frames inside a processed segment are its in-between frames at offsets 1..N |
| Segments.TailRole | mocapPlayer-starter/interpolator.cpp:86-87 | frames from the last keyframe on are copies |
| Segments.Param | mocapPlayer-starter/interpolator.cpp:71 | `t = k / (N + 1)` lies strictly between 0 and 1 and `t (N + 1) = k` |
| Segments.PreviousKeyframe | mocapPlayer-starter/interpolator.cpp:250-251 | the previous keyframe is 0 in the first segment and one stride before the start in every later one |
| Segments.SplitAsWritten | mocapPlayer-starter/interpolator.cpp:183-204 | the code's case split: first when the segment starts at frame 0, last when `thirdKeyframe > inputLength` |
| Segments.SplitCorrected | mocapPlayer-starter/interpolator.cpp:164 | the corrected split of the Findings row: a segment is first exactly when it starts at 0, and last exactly when line 164 loads no next keyframe |
| Segments.SplitBy | mocapPlayer-starter/interpolator.cpp:183-204 | under either test a segment is first exactly when it starts at 0, is last only when it has no next keyframe, and the two tests differ only where the next keyframe is exactly F |
| Segments.AsWrittenReadsUnloadedExactly | mocapPlayer-starter/interpolator.cpp:164-204 | as written, a processed segment reads an unloaded posture exactly when N ≥ 1 and it is the sole segment or F is the keyframe two strides after its start |
| Segments.NoSegmentReadsUnloadedExactly | mocapPlayer-starter/interpolator.cpp:158-204 | with N > 0, no processed segment reads an unloaded posture exactly when no segment fits, or more than one fits and either the test is the corrected one or F is not a multiple of N + 1 |
| Segments.AsWrittenReadsUnloaded | mocapPlayer-starter/interpolator.cpp:194 | as written, a later segment whose next keyframe index equals F is not treated as last, and it reads the unloaded posture exactly when N ≥ 1 (with N = 0 the frame loop does not run) |
| Segments.AsWrittenSixFrames | mocapPlayer-starter/interpolator.cpp:194 | with 6 frames and N = 1 the segment 2..4 reads the unloaded keyframe 6 |
| Segments.CorrectedReadsUnloadedOnlyInSoleSegment | mocapPlayer-starter/interpolator.cpp:164-204 | with the corrected split, a processed segment reads an unloaded posture exactly when N ≥ 1 and it is the first and only segment |
| Interpolation.Inbetween | mocapPlayer-starter/interpolator.cpp:68-80 | the in-between posture of each routine (bodies at 68-80, 171-248, 299-335 and 386-493) has the keyframes' shape; under `AsWritten` its Bezier split is the code's `>` test; `OutputProperties.InbetweenFramesAreBlends` places it in the output |
| Interpolation.NextOf | mocapPlayer-starter/interpolator.cpp:158-164 | the loaded next posture has the keyframes' shape; `Segments.NoSegmentReadsUnloadedExactly` states when a missing one is read |
| Interpolation.Interpolated | mocapPlayer-starter/interpolator.cpp:26-29 | the output has exactly the input's frame count |
| Interpolation.SegmentOfReference | mocapPlayer-starter/interpolator.cpp:55-84 | in the output every processed segment has both keyframes copied and its N frames blended |
| Interpolation.KeyframesAreCopied | mocapPlayer-starter/interpolator.cpp:63-65 | every keyframe the walk reaches holds the input posture |
| Interpolation.ReferenceInbetween | mocapPlayer-starter/interpolator.cpp:68-80 | the frame at offset 1..N of a processed segment holds the routine's posture for that offset |
| Interpolation.TailOfReference | mocapPlayer-starter/interpolator.cpp:86-87 | frames past the last keyframe hold the input posture, and frame 0 holds none when no segment fits |
| Interpolation.CopyKeyframes | mocapPlayer-starter/interpolator.cpp:63-65 | after the copies both keyframes hold their final postures and each was logged once more |
| Interpolation.FillSegment | mocapPlayer-starter/interpolator.cpp:68-81 | after the loop all N in-between frames hold their final postures, each logged once |
| Interpolation.WalkSegment | mocapPlayer-starter/interpolator.cpp:56-84 | one iteration extends the finished prefix of the output and the write log by one segment |
| Interpolation.CopyTail | mocapPlayer-starter/interpolator.cpp:86-87 | after the tail copy the output is complete and every frame was logged as often as `WriteCount` says |
| Interpolation.WalkTowards | mocapPlayer-starter/interpolator.cpp:55-87 | the walk produces any output that agrees with its segments and tail, with exact write multiplicities |
| Interpolation.Walk | mocapPlayer-starter/interpolator.cpp:55-87 | the walk produces the frame-by-frame output, writing keyframes inside the walk twice, frame 0 never when F ≤ N + 1, and every other frame once |
| Interpolation.Interpolate | mocapPlayer-starter/interpolator.cpp:26-45 | the output has the input's frame count and is the output of the routine the configuration selects, with the code's `>` last-segment test |
| OutputProperties.InbetweenFramesAreBlends | mocapPlayer-starter/interpolator.cpp:68-80 | output frame `start + frame` is the routine's posture at `t = frame / (N + 1)`, with 0 < t < 1 |
| OutputProperties.TailIsCopied | mocapPlayer-starter/interpolator.cpp:86-87 | every frame after the last keyframe equals the input frame |
| OutputProperties.WrittenFrames | mocapPlayer-starter/interpolator.cpp:55-87 | frames 1..F-1 always hold a posture; frame 0 holds none exactly when F ≤ N + 1; a frame is written twice exactly when it is a keyframe strictly inside the walk |
| OutputProperties.NoSkipCopiesInput | mocapPlayer-starter/interpolator.cpp:55-87 | with N = 0 and F ≥ 2 the output equals the input |
| OutputProperties.LinearEulerStaysBetween | mocapPlayer-starter/interpolator.cpp:74-78 | in linear Euler mode the root and every bone of an in-between frame lie strictly between the two keyframes, component by component |
| OutputProperties.BezierEulerFrame | mocapPlayer-starter/interpolator.cpp:171-248 | in Bezier Euler mode an in-between frame is the Bezier posture of its segment, with the case split of the given test (the code's `>` under `AsWritten`) and the segment's neighbours |
| OutputProperties.BezierEulerStaysInHull | mocapPlayer-starter/interpolator.cpp:176-245 | in Bezier Euler mode the root and every bone of an in-between frame lie in the box of the four control points the given test selects, so under `AsWritten` those of the code |
| OutputProperties.RootIndependentOfAngleRepresentation | mocapPlayer-starter/interpolator.cpp:305 | the quaternion routines produce the same root trajectory as their Euler counterparts |
| OutputProperties.BezierEulerIgnoresUnloaded | mocapPlayer-starter/interpolator.cpp:194-204 | a Bezier Euler posture does not depend on unloaded values when the next keyframe is loaded or the segment is last and not first |
| OutputProperties.BezierQuaternionBoneIgnoresUnloaded | mocapPlayer-starter/interpolator.cpp:476-487 | the same for one quaternion bone curve |
| OutputProperties.BezierQuaternionIgnoresUnloaded | mocapPlayer-starter/interpolator.cpp:399-487 | the same for a whole Bezier quaternion posture |
| OutputProperties.InbetweenIgnoresUnloaded | mocapPlayer-starter/interpolator.cpp:164-204 | a segment that does not read an unloaded posture under the given test computes the same in-between postures whatever the unloaded values |
| OutputProperties.FrameIgnoresUnloaded | mocapPlayer-starter/interpolator.cpp:164-204 | with N = 0, no segment, or more than one segment when either the test is corrected or F is not a multiple of N + 1, each output frame is independent of the unloaded values |
| OutputProperties.UnloadedIsIrrelevant | mocapPlayer-starter/interpolator.cpp:158-204 | under the same condition the whole output is independent of the unloaded values; `NoSegmentReadsUnloadedExactly` shows that outside it some processed segment reads them |
| OutputProperties.AsWrittenSixFramesOutput | mocapPlayer-starter/interpolator.cpp:194-205 | with six identical bone-less postures at the origin and N = 1, the code's frame 3 is the unloaded root scaled by -1/16 |
| OutputProperties.CorrectedSixFramesOutput | mocapPlayer-starter/interpolator.cpp:164 | on the same input the corrected test leaves frame 3 at the origin, whatever the unloaded values |
| OutputProperties.TenFramesKeyframes | mocapPlayer-starter/interpolator.cpp:55-87 | with 10 frames and N = 2 the walk stops at 9, frames 0, 3, 6, 9 equal the input, and 3 and 6 are written twice |
| OutputProperties.TenFramesFirstSegment | mocapPlayer-starter/interpolator.cpp:68-80 | with 10 frames and N = 2, frames 1 and 2 are the first segment's postures at offsets 1 and 2 |
| OutputProperties.TenFramesSecondSegment | mocapPlayer-starter/interpolator.cpp:68-80 | frames 4 and 5 are the second segment's postures, with previous keyframe 0 |
| OutputProperties.TenFramesThirdSegment | mocapPlayer-starter/interpolator.cpp:68-80 | frames 7 and 8 are the third segment's postures, with previous keyframe 3 |
| OutputProperties.TenFramesParams | mocapPlayer-starter/interpolator.cpp:71 | with N = 2 the in-between parameters are 1/3 and 2/3 |

## Left out

- Trigonometry and square roots are not modelled. This covers `Rotation2Euler`, `Euler2Rotation`, the matrix/quaternion conversions, `Quaternion::Normalize` and the spherical branch of `Slerp` (clamp, `acos`, `sin`, `cos`). They are the uninterpreted fields of `Quaternions.Kit`, because they compute on doubles through transcendental functions.
- `Euler2Rotation` converts its input array to radians in place. The model passes angles by value; every caller hands it a local array that is not read again.
- `Double` is not modelled. No routine calls it, and it is not part of the interpolation. Its dot product adds `p.z` and `q.z` where it should multiply them.
- The discarded `an_` in the quaternion Bezier routine is modelled only through its side effect: the call normalises `bone_rotate2` and may negate `middle`. Its result is not used.
- The timing output (`ofstream`, `clock()`) and the commented-out graph dumps are not modelled. They are instrumentation I/O.
- `len`, `vector::length` and `angle` in vector.cpp are not modelled: they are square root and `acos` on doubles.
- `Interpolate` allocates the output `Motion` and prints before exiting on an unknown configuration. The model returns a sequence, and the error exit is the `None` of `Configuration.Dispatch`, which no configuration reaches.
- Postures are a root vector plus a sequence of bone triples of equal length across the motion. This stands in for the fixed `MAX_BONES_IN_ASF_FILE` array. Other `Posture` fields and the skeleton are not touched by the routines, so they are left out.
- `Vectors.Div` requires a non-zero divisor, because reals have no infinities or NaN; with doubles a zero divisor gives infinite or NaN components. No part of interpolator.cpp divides a vector.
- Doubles are modelled as exact reals: no rounding, no overflow. `int` frame indices are unbounded. For an N close to the `int` range, `startKeyframe + 2 * N + 2` would overflow in the source.
- The values of a next keyframe that was never loaded come from a default-constructed local whose contents the `vector` and `Quaternion` classes decide. Those classes are not part of this model, so the values are an unconstrained parameter.
- The first segment of a walk with exactly one segment still reads an unloaded next keyframe for its control point `a` (interpolator.cpp:183-186). No evident intended value exists, so the model keeps the read under both tests. `OutputProperties.UnloadedIsIrrelevant` excludes this case, and under `AsWritten` also the frame counts that are multiples of N + 1.
- The skip count is a `nat`. The command-line check that rejects a negative N (interpolate.cpp:39-43) is the only caller-side requirement.
- `Interpolation.BlendOf` gives a posture for arguments the walk never uses, outside the processed segments. That value is arbitrary and no statement depends on it.
- The quaternion endpoint laws hold only for a `Kit` satisfying `Quaternions.Laws`. With rounding, normalisation is not exactly idempotent.
- mocapPlayer.cpp and displaySkeleton.cpp (GUI, OpenGL, playback) and the loading code of interpolate.cpp are not part of this model.

## Findings

| source | as written | input that shows it | evidently intended | confidence | as-written member | corrected member |
|---|---|---|---|---|---|---|
| mocapPlayer-starter/interpolator.cpp:194 | the last-segment test is `thirdKeyframe > inputLength` (also lines 232, 411 and 476), while the next posture is loaded only when `thirdKeyframe < inputLength` (line 164) | 6 frames, N = 1: the segment 2..4 has `thirdKeyframe` 6 = `inputLength`, takes the interior branch and reads a next posture that was never loaded | `thirdKeyframe >= inputLength`, so that a segment without a loaded next keyframe uses the last-segment formula | high; not executed | OutputProperties.AsWrittenSixFramesOutput | Segments.CorrectedReadsUnloadedOnlyInSoleSegment |

The discrepancy, as written:
- `Segments.AsWrittenReadsUnloaded` and `Segments.AsWrittenSixFrames` give it at the level of the case split.
- `OutputProperties.AsWrittenSixFramesOutput` shows the unloaded values reaching output frame 3.

The correction:
- The corrected split is `Segments.SplitCorrected`, selected by `Segments.LastTest.Corrected`.
- `OutputProperties.CorrectedSixFramesOutput` gives the corrected frame 3.
- `OutputProperties.UnloadedIsIrrelevant` proves the output independent of the unloaded values whenever more than one segment fits.

`Interpolation.Interpolate` keeps the code's test.
