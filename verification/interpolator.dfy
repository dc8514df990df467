/** The segment walk that all four routines of interpolator.cpp share, and
    `Interpolator::Interpolate`, which selects the routine.

    The walk: with skip count `n`, keyframes lie `n + 1` frames apart starting
    at frame 0. For every segment `start .. start + n + 1` that fits inside the
    input, both keyframes are copied to the output and the `n` frames between
    them are filled by the routine; afterwards the frames past the last
    keyframe the walk reached are copied from the input. */
module Interpolation {
  import opened Maybe
  import opened Vectors
  import opened Quaternions
  import opened Segments
  import opened Postures
  import opened Configuration

  /** The output motion. A frame is `None` while no posture has been written
      to it: the output motion starts out with default postures. */
  type Output = seq<Option<Posture>>

  /** The next keyframe's posture, if the Bezier routines load it. */
  function NextOf(input: Motion, start: nat, n: nat): (next: Neighbour)
    requires Uniform(input) && start < |input|
    ensures NeighbourShape(next, input[start])
    ensures next.Loaded? <==> HasNext(|input|, start, n)
    ensures next.Loaded? ==> next.posture == input[NextKeyframe(start, n)]
  {
    if HasNext(|input|, start, n) then Loaded(input[NextKeyframe(start, n)]) else NotLoaded
  }

  /** The posture the routine writes to frame `start + frame` of the segment
      starting at `start`; `prev` is the previous segment's start keyframe and
      `test` the last-segment test of the Bezier control points (the source
      applies `AsWritten`). */
  function Inbetween(r: Routine, test: LastTest, k: Kit, u: Unloaded, input: Motion, n: nat,
                     prev: nat, start: nat, frame: nat): (p: Posture)
    requires Uniform(input)
    requires prev <= start && start + Stride(n) < |input|
    requires 1 <= frame <= n
    ensures SameShape(p, input[start])
  {
    var t := Param(frame, n);
    var s := input[start];
    var e := input[start + Stride(n)];
    var split := SplitBy(test, |input|, start, n);
    match r
    case LinearEuler => LinearEulerPosture(s, e, t)
    case LinearQuaternion => LinearQuaternionPosture(k, s, e, t)
    case BezierEuler => BezierEulerPosture(t, split, input[prev], s, e, NextOf(input, start, n), u)
    case BezierQuaternion => BezierQuaternionPosture(k, t, split, input[prev], s, e, NextOf(input, start, n), u)
  }

  /** What a routine writes to frame `start + frame` of the segment starting
      at keyframe `start`, `prev` being the previous segment's start. The walk
      is the same for all four routines; only this differs. */
  type Blend = (nat, nat, nat) -> Posture

  /** The blend of routine `r`. Outside the segments the walk processes its
      value is never used. */
  function BlendOf(r: Routine, test: LastTest, k: Kit, u: Unloaded, input: Motion, n: nat): Blend
    requires Uniform(input)
  {
    (prev: nat, start: nat, frame: nat) =>
      if prev <= start && start + Stride(n) < |input| && 1 <= frame <= n
      then Inbetween(r, test, k, u, input, n, prev, start, frame)
      else Posture(Zero, [])
  }

  /** What the walk leaves in frame `i`, by the frame's role: nothing, the
      input posture, or the blend of its segment. */
  function Expected(blend: Blend, input: Motion, n: nat, i: nat): Option<Posture>
    requires i < |input|
  {
    match RoleOf(|input|, n, i)
    case Unwritten => None
    case Copied => Some(input[i])
    case Between(m, frame) => Some(blend(PreviousKeyframe(m, n), Keyframe(m, n), frame))
  }

  /** The whole output motion, frame by frame. */
  function Reference(blend: Blend, input: Motion, n: nat): (out: Output)
    ensures |out| == |input|
  {
    seq(|input|, i requires 0 <= i < |input| => Expected(blend, input, n, i))
  }

  /** The output motion of routine `r` under the last-segment test `test`. */
  function Interpolated(r: Routine, test: LastTest, k: Kit, u: Unloaded, input: Motion, n: nat): (out: Output)
    requires Uniform(input)
    ensures |out| == |input|
  {
    Reference(BlendOf(r, test, k, u, input, n), input, n)
  }

  /** How many times the walk writes frame `j`: keyframes strictly between
      frame 0 and the last keyframe are written twice, as the end of one
      segment and the start of the next; frame 0 is not written at all when no
      segment fits; every other frame once. */
  function WriteCount(frames: nat, n: nat, j: nat): nat
  {
    if frames <= j || (j == 0 && frames <= Stride(n)) then 0
    else if 0 < j < LastKeyframe(frames, n) && IsKeyframe(j, n) then 2
    else 1
  }

  /** The write count of frame `j` once the walk has reached keyframe `start`. */
  function WrittenBefore(start: nat, n: nat, j: nat): nat
  {
    if 0 < start && j <= start then
      if 0 < j < start && IsKeyframe(j, n) then 2 else 1
    else 0
  }

  /** The frames of the segment `start .. start + n + 1` in `out`, `prev`
      being the previous segment's start: both keyframes copied from the
      input, and the `n` frames between them blended. */
  ghost predicate SegmentIn(blend: Blend, input: Motion, n: nat, prev: nat, start: nat, out: Output)
  {
    && |out| == |input|
    && start + Stride(n) < |input|
    && out[start] == Some(input[start])
    && out[start + Stride(n)] == Some(input[start + Stride(n)])
    && forall f :: 1 <= f <= n ==> out[start + f] == Some(blend(prev, start, f))
  }

  /** Every segment the walk processes appears in the output as the walk
      writes it. */
  lemma {:induction false} SegmentOfReference(blend: Blend, input: Motion, n: nat, m: nat)
    requires Keyframe(m, n) + Stride(n) < |input|
    ensures SegmentIn(blend, input, n, PreviousKeyframe(m, n), Keyframe(m, n), Reference(blend, input, n))
  {
    var prev, start := PreviousKeyframe(m, n), Keyframe(m, n);
    KeyframesAreCopied(blend, input, n, m);
    KeyframesAreCopied(blend, input, n, m + 1);
    forall f | 1 <= f <= n
      ensures Reference(blend, input, n)[start + f] == Some(blend(prev, start, f))
    {
      ReferenceInbetween(blend, input, n, m, f);
    }
  }

  /** Every keyframe the walk reaches is copied unchanged from the input. */
  lemma {:induction false} KeyframesAreCopied(blend: Blend, input: Motion, n: nat, m: nat)
    requires Keyframe(m, n) < |input|
    requires 0 < m || Stride(n) < |input|
    ensures Reference(blend, input, n)[Keyframe(m, n)] == Some(input[Keyframe(m, n)])
  {
    KeyframeRole(|input|, n, m);
    ReferenceAt(blend, input, n, Keyframe(m, n));
  }

  /** The `frame`-th frame of the segment starting at the `m`-th keyframe
      holds the blend for that frame. */
  lemma {:induction false} ReferenceInbetween(blend: Blend, input: Motion, n: nat, m: nat, frame: nat)
    requires Keyframe(m, n) + Stride(n) < |input|
    requires 1 <= frame <= n
    ensures Reference(blend, input, n)[Keyframe(m, n) + frame]
      == Some(blend(PreviousKeyframe(m, n), Keyframe(m, n), frame))
  {
    InbetweenRole(|input|, n, m, frame);
    ReferenceAt(blend, input, n, Keyframe(m, n) + frame);
  }

  /** Frame `i` of the output. */
  lemma {:induction false} ReferenceAt(blend: Blend, input: Motion, n: nat, i: nat)
    requires i < |input|
    ensures Reference(blend, input, n)[i] == Expected(blend, input, n, i)
  {
  }

  /** The frames after the last keyframe are copies of the input, and frame 0
      holds no posture when the walk processes no segment. */
  lemma {:induction false} TailOfReference(blend: Blend, input: Motion, n: nat)
    ensures forall j :: LastKeyframe(|input|, n) < j < |input| ==> Reference(blend, input, n)[j] == Some(input[j])
    ensures 0 < |input| && LastKeyframe(|input|, n) == 0 ==> Reference(blend, input, n)[0] == None
  {
    forall j | LastKeyframe(|input|, n) < j < |input|
      ensures Reference(blend, input, n)[j] == Some(input[j])
    {
      TailRole(|input|, n, 0, j);
      ReferenceAt(blend, input, n, j);
    }
  }

  /** The output once the walk has reached keyframe `start`: every frame up to
      `start` holds its final posture `ref[j]`, provided a segment was processed. */
  ghost predicate WalkedTo(ref: Output, start: nat, output: Output)
  {
    && |output| == |ref|
    && forall j :: 0 <= j < |ref| ==> output[j] == (if 0 < start && j <= start then ref[j] else None)
  }

  /** The output while the walk fills the segment `start .. end`: the frames
      before `start + frame` and the end keyframe hold their final postures. */
  ghost predicate FilledTo(ref: Output, start: nat, end: nat, frame: nat, output: Output)
  {
    && |output| == |ref|
    && forall j :: 0 <= j < |ref| ==> output[j] == (if j < start + frame || j == end then ref[j] else None)
  }

  /** The write counts while the walk fills the segment starting at `start`. */
  function WrittenWithin(start: nat, n: nat, frame: nat, j: nat): nat
  {
    WrittenBefore(start, n, j) + (if j == start || j == start + Stride(n) || start < j < start + frame then 1 else 0)
  }

  /** The two keyframe copies at the top of a segment. */
  method CopyKeyframes(input: Motion, n: nat, start: nat, ghost ref: Output, output: Output, writes: seq<nat>)
    returns (output': Output, writes': seq<nat>)
    requires |ref| == |input| && start + Stride(n) < |input|
    requires ref[start] == Some(input[start]) && ref[start + Stride(n)] == Some(input[start + Stride(n)])
    requires WalkedTo(ref, start, output)
    requires forall j: nat :: multiset(writes)[j] == WrittenBefore(start, n, j)
    ensures FilledTo(ref, start, start + Stride(n), 1, output')
    ensures forall j: nat :: multiset(writes')[j] == WrittenWithin(start, n, 1, j)
  {
    var end := start + n + 1;
    output' := output[start := Some(input[start])];
    output' := output'[end := Some(input[end])];
    writes' := writes + [start, end];
  }

  /** The loop over the frames between the two keyframes of a segment. */
  method FillSegment(blend: Blend, input: Motion, n: nat, start: nat, previous: nat,
                     ghost ref: Output, output: Output, writes: seq<nat>)
    returns (output': Output, writes': seq<nat>)
    requires |ref| == |input| && start + Stride(n) < |input|
    requires forall f :: 1 <= f <= n ==> ref[start + f] == Some(blend(previous, start, f))
    requires FilledTo(ref, start, start + Stride(n), 1, output)
    requires forall j: nat :: multiset(writes)[j] == WrittenWithin(start, n, 1, j)
    ensures FilledTo(ref, start, start + Stride(n), Stride(n), output')
    ensures forall j: nat :: multiset(writes')[j] == WrittenWithin(start, n, Stride(n), j)
  {
    output', writes' := output, writes;
    var frame := 1;
    while frame <= n
      invariant 1 <= frame <= n + 1
      invariant FilledTo(ref, start, start + Stride(n), frame, output')
      invariant forall j: nat :: multiset(writes')[j] == WrittenWithin(start, n, frame, j)
    {
      var p := blend(previous, start, frame);
      output' := output'[start + frame := Some(p)];
      writes' := writes' + [start + frame];
      frame := frame + 1;
    }
  }

  /** One iteration of the walk: copy both keyframes of the segment starting at
      the `m`-th keyframe, then fill the `n` frames between them. */
  method WalkSegment(blend: Blend, input: Motion, n: nat, start: nat, ghost m: nat,
                     previous: nat, ghost ref: Output, output: Output, writes: seq<nat>)
    returns (output': Output, writes': seq<nat>)
    requires start == Keyframe(m, n)
    requires SegmentIn(blend, input, n, previous, start, ref)
    requires WalkedTo(ref, start, output)
    requires forall j: nat :: multiset(writes)[j] == WrittenBefore(start, n, j)
    ensures WalkedTo(ref, start + Stride(n), output')
    ensures forall j: nat :: multiset(writes')[j] == WrittenBefore(start + Stride(n), n, j)
  {
    output', writes' := CopyKeyframes(input, n, start, ref, output, writes);
    output', writes' := FillSegment(blend, input, n, start, previous, ref, output', writes');
    KeyframesAreKeyframes(m, n, 0);
    forall j: nat
      ensures WrittenWithin(start, n, Stride(n), j) == WrittenBefore(start + Stride(n), n, j)
    {
      if start < j < start + Stride(n) {
        KeyframesAreKeyframes(m, n, j - start);
      }
    }
  }

  /** The copy after the walk: the frames past the last keyframe are copied
      from the input. */
  method CopyTail(input: Motion, n: nat, ghost ref: Output, output: Output, writes: seq<nat>)
    returns (output': Output, writes': seq<nat>)
    requires |ref| == |input|
    requires WalkedTo(ref, LastKeyframe(|input|, n), output)
    requires forall j :: LastKeyframe(|input|, n) < j < |input| ==> ref[j] == Some(input[j])
    requires 0 < |input| && LastKeyframe(|input|, n) == 0 ==> ref[0] == None
    requires forall j: nat :: multiset(writes)[j] == WrittenBefore(LastKeyframe(|input|, n), n, j)
    ensures output' == ref
    ensures forall j: nat :: multiset(writes')[j] == WriteCount(|input|, n, j)
  {
    var frames := |input|;
    var start := LastKeyframe(frames, n);
    output' := output;
    writes' := writes;
    var frame := start + 1;
    while frame < frames
      invariant start < frame && (frame <= frames || frame == start + 1)
      invariant |output'| == frames
      invariant forall j :: 0 <= j < frames ==>
        output'[j] == (if j <= start then output[j] else if j < frame then Some(input[j]) else None)
      invariant forall j: nat :: multiset(writes')[j] == WrittenBefore(start, n, j) + (if start < j < frame then 1 else 0)
    {
      output' := output'[frame := Some(input[frame])];
      writes' := writes' + [frame];
      frame := frame + 1;
    }
    assert forall j :: 0 <= j < frames ==> output'[j] == ref[j];
  }

  /** What the walk needs to know about its target output `ref`: the
      frames of every segment it processes, and the frames after it. */
  ghost predicate Describes(blend: Blend, input: Motion, n: nat, ref: Output)
  {
    && |ref| == |input|
    && (forall m: nat {:trigger SegmentIn(blend, input, n, PreviousKeyframe(m, n), Keyframe(m, n), ref)} ::
          Keyframe(m, n) + Stride(n) < |input| ==>
          SegmentIn(blend, input, n, PreviousKeyframe(m, n), Keyframe(m, n), ref))
    && (forall j :: LastKeyframe(|input|, n) < j < |input| ==> ref[j] == Some(input[j]))
    && (0 < |input| && LastKeyframe(|input|, n) == 0 ==> ref[0] == None)
  }

  /** The frame-by-frame output is what the walk needs to know about it. */
  lemma {:induction false} ReferenceIsDescribed(blend: Blend, input: Motion, n: nat)
    ensures Describes(blend, input, n, Reference(blend, input, n))
  {
    forall m: nat | Keyframe(m, n) + Stride(n) < |input|
      ensures SegmentIn(blend, input, n, PreviousKeyframe(m, n), Keyframe(m, n), Reference(blend, input, n))
    {
      SegmentOfReference(blend, input, n, m);
    }
    TailOfReference(blend, input, n);
  }

  /** A segment the walk processes, as `ref` describes it. */
  lemma {:induction false} DescribedSegment(blend: Blend, input: Motion, n: nat, ref: Output, m: nat)
    requires Describes(blend, input, n, ref)
    requires Keyframe(m, n) + Stride(n) < |input|
    ensures SegmentIn(blend, input, n, PreviousKeyframe(m, n), Keyframe(m, n), ref)
  {
  }

  /** The segment walk towards the target output `ref`. */
  method WalkTowards(blend: Blend, input: Motion, n: nat, ghost ref: Output)
    returns (output: Output, writes: seq<nat>)
    requires Describes(blend, input, n, ref)
    ensures output == ref
    ensures forall j: nat :: multiset(writes)[j] == WriteCount(|input|, n, j)
  {
    var frames := |input|;
    output := seq(frames, _ => None);
    writes := [];
    var start := 0;
    var previous := 0;
    ghost var m: nat := 0;
    while start + n + 1 < frames
      invariant start == Keyframe(m, n)
      invariant previous == PreviousKeyframe(m, n)
      invariant m == 0 || start < frames
      invariant WalkedTo(ref, start, output)
      invariant forall j: nat :: multiset(writes)[j] == WrittenBefore(start, n, j)
      decreases frames - start
    {
      DescribedSegment(blend, input, n, ref, m);
      output, writes := WalkSegment(blend, input, n, start, m, previous, ref, output, writes);
      previous := start;
      start := start + n + 1;
      m := m + 1;
    }
    LastKeyframeIsWhereWalkStops(frames, n, m);
    output, writes := CopyTail(input, n, ref, output, writes);
  }

  /** The segment walk. `writes` lists the frame index of every assignment to
      the output, in order. */
  method Walk(blend: Blend, input: Motion, n: nat)
    returns (output: Output, writes: seq<nat>)
    ensures output == Reference(blend, input, n)
    ensures forall j: nat :: multiset(writes)[j] == WriteCount(|input|, n, j)
  {
    ReferenceIsDescribed(blend, input, n);
    output, writes := WalkTowards(blend, input, n, Reference(blend, input, n));
  }

  /** `Interpolator::Interpolate`: dispatch on the two fields, then run the
      walk with the selected routine's blend, whose Bezier control points use
      the last-segment test as the source writes it. The dispatch's error exit
      is unreachable from any configuration (`DispatchIsExhaustive`). */
  method Interpolate(config: Interpolator, k: Kit, u: Unloaded, input: Motion, n: nat)
    returns (output: Output)
    requires Uniform(input)
    ensures |output| == |input|
    ensures output == Interpolated(RoutineOf(config), AsWritten, k, u, input, n)
  {
    var routine := Dispatch(InterpolationTypeCode(config.interpolationType),
                            AngleRepresentationCode(config.angleRepresentation));
    DispatchIsExhaustive(config, config, LinearEuler);
    var writes;
    output, writes := Walk(BlendOf(routine.value, AsWritten, k, u, input, n), input, n);
  }
}
