/** Keyframe index arithmetic shared by the four interpolation routines of
    interpolator.cpp. With skip count `n` consecutive keyframes are `n + 1`
    frames apart: the walk starts at frame 0 and adds `n + 1` to `start` once
    per segment. A segment runs from keyframe `start` to `start + n + 1`; the
    Bezier routines also look one segment back (`previousKeyframe`) and one
    segment ahead (`thirdKeyframe = start + 2n + 2`). */
module Segments {

  /** Distance between consecutive keyframes. */
  function Stride(n: nat): nat
  {
    n + 1
  }

  /** The `m`-th keyframe: the value of `start` after `m` steps of the walk. */
  function Keyframe(m: nat, n: nat): nat
  {
    if m == 0 then 0 else Keyframe(m - 1, n) + Stride(n)
  }

  /** Later keyframes lie at least a stride further on. */
  lemma {:induction false} KeyframeMonotone(m1: nat, m2: nat, n: nat)
    requires m1 < m2
    ensures Keyframe(m1, n) + Stride(n) <= Keyframe(m2, n)
    decreases m2
  {
    if m1 + 1 < m2 {
      KeyframeMonotone(m1, m2 - 1, n);
    }
  }

  /** The segment frame `i` lies in: the keyframe at or before it. */
  function SegmentOf(i: nat, n: nat): (m: nat)
    ensures Keyframe(m, n) <= i < Keyframe(m, n) + Stride(n)
    decreases i
  {
    if i < Stride(n) then 0 else SegmentOf(i - Stride(n), n) + 1
  }

  /** Each frame lies in exactly one segment: no in-between frame is written
      by two segments. */
  lemma {:induction false} SegmentUnique(i: nat, m: nat, n: nat)
    requires Keyframe(m, n) <= i < Keyframe(m, n) + Stride(n)
    ensures SegmentOf(i, n) == m
  {
    var m' := SegmentOf(i, n);
    if m' < m {
      KeyframeMonotone(m', m, n);
      assert false;
    } else if m < m' {
      KeyframeMonotone(m, m', n);
      assert false;
    }
  }

  /** Frame `i` is a keyframe. */
  predicate IsKeyframe(i: nat, n: nat)
  {
    i == Keyframe(SegmentOf(i, n), n)
  }

  /** The keyframes are exactly the frames `k` strides from frame 0. */
  lemma {:induction false} KeyframesAreKeyframes(m: nat, n: nat, k: nat)
    requires k < Stride(n)
    ensures SegmentOf(Keyframe(m, n) + k, n) == m
    ensures IsKeyframe(Keyframe(m, n) + k, n) <==> k == 0
  {
    SegmentUnique(Keyframe(m, n) + k, m, n);
  }

  // ---------------------------------------------------------------------------
  // Agreement with Euclidean division
  // ---------------------------------------------------------------------------

  lemma NonZeroMultiple(x: int, q: int)
    requires x != 0 && q > 0
    ensures x * q >= q || x * q <= -q
  {
    if x > 0 {
      assert x * q == (x - 1) * q + q;
      assert (x - 1) * q >= 0;
    } else {
      assert x * q == -((-x - 1) * q) - q;
      assert (-x - 1) * q >= 0;
    }
  }

  /** Euclidean division is unique: the quotient and remainder are the only
      pair that recomposes `a` with a remainder below the divisor. */
  lemma DivModUnique(a: int, q: int, d: int, r: int)
    requires q > 0 && 0 <= r < q && a == d * q + r
    ensures a / q == d && a % q == r
  {
    var d', r' := a / q, a % q;
    assert (d - d') * q == r' - r;
    if d != d' {
      NonZeroMultiple(d - d', q);
      assert false;
    }
  }

  /** The `m`-th keyframe is `m (n + 1)`. */
  lemma {:induction false} KeyframeIsMultiple(m: nat, n: nat)
    ensures Keyframe(m, n) == m * Stride(n)
  {
    if m > 0 {
      KeyframeIsMultiple(m - 1, n);
      assert m * Stride(n) == (m - 1) * Stride(n) + Stride(n);
    }
  }

  /** The segment of a frame is its quotient by `n + 1` and its offset in the
      segment the remainder; so the keyframes are the multiples of `n + 1`. */
  lemma SegmentIsQuotient(i: nat, n: nat)
    ensures SegmentOf(i, n) == i / Stride(n)
    ensures i - Keyframe(SegmentOf(i, n), n) == i % Stride(n)
    ensures IsKeyframe(i, n) <==> i % Stride(n) == 0
  {
    var m := SegmentOf(i, n);
    KeyframeIsMultiple(m, n);
    DivModUnique(i, Stride(n), m, i - Keyframe(m, n));
  }

  // ---------------------------------------------------------------------------
  // Where the walk stops
  // ---------------------------------------------------------------------------

  /** The segment index the walk stops at. */
  function LastSegment(frames: nat, n: nat): nat
  {
    if frames == 0 then 0 else SegmentOf(frames - 1, n)
  }

  /** The keyframe the segment walk stops at: the loop `while (start + n + 1 <
      frames)` advances `start` by the stride, so it ends at the greatest
      keyframe below `frames`, or at 0. */
  function LastKeyframe(frames: nat, n: nat): (last: nat)
    ensures IsKeyframe(last, n)
    ensures frames > 0 ==> last < frames <= last + Stride(n)
    ensures frames == 0 ==> last == 0
    ensures last == 0 <==> frames <= Stride(n)
  {
    KeyframesAreKeyframes(LastSegment(frames, n), n, 0);
    Keyframe(LastSegment(frames, n), n)
  }

  /** The loop condition fails exactly at the last keyframe. */
  lemma LastKeyframeIsWhereWalkStops(frames: nat, n: nat, m: nat)
    requires Keyframe(m, n) + Stride(n) >= frames
    requires m == 0 || Keyframe(m, n) < frames
    ensures Keyframe(m, n) == LastKeyframe(frames, n)
  {
    if frames > 0 {
      SegmentUnique(frames - 1, m, n);
    }
  }

  /** A segment that fits inside the motion ends at or before the last keyframe. */
  lemma BeforeLastKeyframe(frames: nat, n: nat, m: nat)
    requires Keyframe(m, n) + Stride(n) < frames
    ensures Keyframe(m, n) + Stride(n) <= LastKeyframe(frames, n)
  {
    var last := LastSegment(frames, n);
    if last <= m {
      if last < m {
        KeyframeMonotone(last, m, n);
      }
      assert false;
    }
    KeyframeMonotone(m, last, n);
  }

  /** A frame before the last keyframe lies in a segment the walk processes in full. */
  lemma SegmentOfFrame(frames: nat, n: nat, i: nat)
    requires i < LastKeyframe(frames, n)
    ensures Keyframe(SegmentOf(i, n), n) + Stride(n) <= LastKeyframe(frames, n)
  {
    var m, last := SegmentOf(i, n), LastSegment(frames, n);
    if last <= m {
      if last < m {
        KeyframeMonotone(last, m, n);
      }
      assert false;
    }
    KeyframeMonotone(m, last, n);
  }

  // ---------------------------------------------------------------------------
  // What the walk leaves in each frame
  // ---------------------------------------------------------------------------

  /** The part a frame plays in the walk: never written, copied from the
      input, or the `offset`-th in-between frame of the `segment`-th segment. */
  datatype Role = Unwritten | Copied | Between(segment: nat, offset: nat)

  /** The role of frame `i` as the walk assigns it from the `m`-th keyframe
      on. While a segment fits, its start keyframe is copied and its `n` inner
      frames are in-between frames, and the walk moves one stride on; once no
      segment fits, every frame from the keyframe it stopped at is copied,
      except frame 0 when the walk processed no segment at all. */
  function RoleFrom(frames: nat, n: nat, m: nat, i: nat): (r: Role)
    requires Keyframe(m, n) <= i < frames
    ensures r.Unwritten? <==> i == 0 && frames <= Stride(n)
    ensures r.Between? ==> m <= r.segment && 1 <= r.offset <= n
    ensures r.Between? ==> i == Keyframe(r.segment, n) + r.offset && Keyframe(r.segment, n) + Stride(n) < frames
    decreases i - Keyframe(m, n)
  {
    var start := Keyframe(m, n);
    if frames <= start + Stride(n) then
      if i == 0 then Unwritten else Copied
    else if i == start then Copied
    else if i < start + Stride(n) then Between(m, i - start)
    else RoleFrom(frames, n, m + 1, i)
  }

  /** The role of frame `i` in a motion of `frames` frames. */
  function RoleOf(frames: nat, n: nat, i: nat): (r: Role)
    requires i < frames
    ensures r.Unwritten? <==> i == 0 && frames <= Stride(n)
    ensures r.Between? ==> 1 <= r.offset <= n
    ensures r.Between? ==> i == Keyframe(r.segment, n) + r.offset && Keyframe(r.segment, n) + Stride(n) < frames
  {
    RoleFrom(frames, n, 0, i)
  }

  /** Every keyframe the walk reaches is a copy: one that starts or ends a
      segment the walk processes. */
  lemma KeyframeRole(frames: nat, n: nat, m: nat)
    requires Keyframe(m, n) < frames
    requires 0 < m || Stride(n) < frames
    ensures RoleOf(frames, n, Keyframe(m, n)) == Copied
  {
    KeyframeRoleFrom(frames, n, 0, m);
  }

  /** The keyframe that ends a segment the walk processes is a copy. */
  lemma EndKeyframeRole(frames: nat, n: nat, m: nat)
    requires Keyframe(m, n) + Stride(n) < frames
    ensures RoleOf(frames, n, Keyframe(m, n) + Stride(n)) == Copied
  {
    KeyframeRole(frames, n, m + 1);
  }

  lemma {:induction false} KeyframeRoleFrom(frames: nat, n: nat, j: nat, m: nat)
    requires j <= m && Keyframe(j, n) <= Keyframe(m, n) < frames
    requires 0 < m || Stride(n) < frames
    ensures RoleFrom(frames, n, j, Keyframe(m, n)) == Copied
    decreases m - j
  {
    if j < m {
      KeyframeMonotone(j, m, n);
      if j + 1 < m {
        KeyframeMonotone(j + 1, m, n);
      }
      KeyframeRoleFrom(frames, n, j + 1, m);
    }
  }

  /** The `n` frames between the keyframes of a segment the walk processes
      are that segment's in-between frames, in order. */
  lemma InbetweenRole(frames: nat, n: nat, m: nat, frame: nat)
    requires Keyframe(m, n) + Stride(n) < frames
    requires 1 <= frame <= n
    ensures RoleOf(frames, n, Keyframe(m, n) + frame) == Between(m, frame)
  {
    InbetweenRoleFrom(frames, n, 0, m, frame);
  }

  lemma {:induction false} InbetweenRoleFrom(frames: nat, n: nat, j: nat, m: nat, frame: nat)
    requires j <= m && Keyframe(j, n) <= Keyframe(m, n)
    requires Keyframe(m, n) + Stride(n) < frames
    requires 1 <= frame <= n
    ensures RoleFrom(frames, n, j, Keyframe(m, n) + frame) == Between(m, frame)
    decreases m - j
  {
    if j < m {
      KeyframeMonotone(j, m, n);
      if j + 1 < m {
        KeyframeMonotone(j + 1, m, n);
      }
      InbetweenRoleFrom(frames, n, j + 1, m, frame);
    }
  }

  /** The frames from the last keyframe on are copies (frame 0 excepted when
      it is the last keyframe and no segment fits). */
  lemma {:induction false} TailRole(frames: nat, n: nat, j: nat, i: nat)
    requires Keyframe(j, n) <= i < frames
    requires LastKeyframe(frames, n) <= i
    requires 0 < i || Stride(n) < frames
    ensures RoleFrom(frames, n, j, i) == Copied
    decreases i - Keyframe(j, n)
  {
    if Keyframe(j, n) + Stride(n) < frames {
      BeforeLastKeyframe(frames, n, j);
      TailRole(frames, n, j + 1, i);
    }
  }

  /** The roles in closed form: frame 0 is never written when no segment
      fits; keyframes and the frames from the last keyframe on are copies;
      every other frame is an in-between frame of the segment it lies in, at
      its offset from that segment's start keyframe. */
  lemma RoleOfClosedForm(frames: nat, n: nat, i: nat)
    requires i < frames
    ensures RoleOf(frames, n, i) ==
      if i == 0 && frames <= Stride(n) then Unwritten
      else if LastKeyframe(frames, n) <= i || IsKeyframe(i, n) then Copied
      else Between(SegmentOf(i, n), i - Keyframe(SegmentOf(i, n), n))
  {
    var m := SegmentOf(i, n);
    if i == 0 && frames <= Stride(n) {
    } else if LastKeyframe(frames, n) <= i {
      TailRole(frames, n, 0, i);
    } else if IsKeyframe(i, n) {
      KeyframeRole(frames, n, m);
    } else {
      SegmentOfFrame(frames, n, i);
      InbetweenRole(frames, n, m, i - Keyframe(m, n));
    }
  }

  // ---------------------------------------------------------------------------
  // One segment
  // ---------------------------------------------------------------------------

  /** The in-between parameter `t = k / (n + 1)` of frame `start + k`. */
  function Param(k: nat, n: nat): (t: real)
    requires 1 <= k <= n
    ensures 0.0 < t < 1.0
    ensures t * Stride(n) as real == k as real
  {
    var t := k as real / Stride(n) as real;
    assert t * Stride(n) as real == k as real;
    t
  }

  /** `previousKeyframe` of the Bezier routines: 0 in the first segment and the
      previous segment's start in every later one. */
  function PreviousKeyframe(m: nat, n: nat): (p: nat)
    ensures m == 0 ==> p == 0
    ensures m > 0 ==> p + Stride(n) == Keyframe(m, n)
  {
    if m == 0 then 0 else Keyframe(m - 1, n)
  }

  /** `thirdKeyframe`, the keyframe one segment past the end of the segment. */
  function NextKeyframe(start: nat, n: nat): nat
  {
    start + 2 * n + 2
  }

  /** The next keyframe's posture is loaded only when it lies before the end
      of the input. */
  predicate HasNext(frames: nat, start: nat, n: nat)
  {
    NextKeyframe(start, n) < frames
  }

  // ---------------------------------------------------------------------------
  // The control-point case split
  // ---------------------------------------------------------------------------

  /** Which case of the control-point synthesis a segment falls into. */
  datatype Split = Split(first: bool, last: bool)

  /** The case split of the source as written: a segment counts as the last
      one only when `thirdKeyframe > inputLength`. */
  function SplitAsWritten(frames: nat, start: nat, n: nat): Split
  {
    Split(start == 0, NextKeyframe(start, n) > frames)
  }

  /** The corrected case split: a segment is the last one exactly when it has
      no next keyframe. */
  function SplitCorrected(frames: nat, start: nat, n: nat): (s: Split)
    ensures s.first <==> start == 0
    ensures s.last <==> !HasNext(frames, start, n)
  {
    Split(start == 0, NextKeyframe(start, n) >= frames)
  }

  /** Which last-segment test the control-point synthesis applies: the
      source's `thirdKeyframe > inputLength`, or the corrected
      `thirdKeyframe >= inputLength`. */
  datatype LastTest = AsWritten | Corrected

  /** The case split under the given last-segment test. The two tests agree
      on every segment except one whose next keyframe is exactly the frame
      count. */
  function SplitBy(test: LastTest, frames: nat, start: nat, n: nat): (s: Split)
    ensures s.first <==> start == 0
    ensures s.last ==> !HasNext(frames, start, n)
    ensures NextKeyframe(start, n) != frames ==> s == SplitCorrected(frames, start, n)
  {
    match test
    case AsWritten => SplitAsWritten(frames, start, n)
    case Corrected => SplitCorrected(frames, start, n)
  }

  /** The synthesis runs once per in-between frame, so only when at least one
      frame is skipped; it then reads the next keyframe's posture in the first
      segment (for `a`) and in every segment not treated as the last one (for
      `b`), and that posture was never loaded when there is no next keyframe. */
  predicate ReadsUnloaded(s: Split, frames: nat, start: nat, n: nat)
  {
    0 < n && (s.first || !s.last) && !HasNext(frames, start, n)
  }

  /** As written: whenever the keyframe after a segment past the first is
      exactly `inputLength`, that segment is not treated as the last one and
      its `b` reads the next posture, which was never loaded, as soon as some
      frame is skipped. */
  lemma AsWrittenReadsUnloaded(frames: nat, m: nat, n: nat)
    requires 0 < m && Keyframe(m, n) + Stride(n) < frames
    requires NextKeyframe(Keyframe(m, n), n) == frames
    ensures !SplitAsWritten(frames, Keyframe(m, n), n).last
    ensures ReadsUnloaded(SplitAsWritten(frames, Keyframe(m, n), n), frames, Keyframe(m, n), n) <==> 0 < n
  {
  }

  /** An instance: with 6 frames and n = 1 the walk processes the segment
      2..4, whose next keyframe 6 is past the end; 6 > 6 is false. */
  lemma AsWrittenSixFrames()
    ensures Keyframe(1, 1) == 2 && Keyframe(1, 1) + Stride(1) < 6
    ensures NextKeyframe(2, 1) == 6
    ensures ReadsUnloaded(SplitAsWritten(6, 2, 1), 6, 2, 1)
  {
  }

  /** As written, a segment the walk processes reads a posture that was never
      loaded exactly when some frame is skipped and it is the sole segment or
      its next keyframe is the frame count itself, i.e. the frame count is the
      keyframe two strides on. */
  lemma {:induction false} AsWrittenReadsUnloadedExactly(frames: nat, m: nat, n: nat)
    requires Keyframe(m, n) + Stride(n) < frames
    ensures ReadsUnloaded(SplitAsWritten(frames, Keyframe(m, n), n), frames, Keyframe(m, n), n)
        <==> 0 < n && ((m == 0 && frames <= 2 * Stride(n)) || frames == Keyframe(m + 2, n))
  {
  }

  /** Corrected: only the first segment can read an unloaded posture, and only
      when it is also the last segment the walk processes and some frame is
      skipped. */
  lemma {:induction false} CorrectedReadsUnloadedOnlyInSoleSegment(frames: nat, m: nat, n: nat)
    requires Keyframe(m, n) + Stride(n) < frames
    ensures ReadsUnloaded(SplitCorrected(frames, Keyframe(m, n), n), frames, Keyframe(m, n), n)
        <==> 0 < n && m == 0 && frames <= 2 * Stride(n)
  {
  }

  /** No segment the walk processes reads a next keyframe that was never loaded. */
  ghost predicate NoSegmentReadsUnloaded(test: LastTest, frames: nat, n: nat)
  {
    forall m: nat :: Keyframe(m, n) + Stride(n) < frames ==>
      !ReadsUnloaded(SplitBy(test, frames, Keyframe(m, n), n), frames, Keyframe(m, n), n)
  }

  /** The walk avoids unloaded values exactly when no frame is skipped, when
      no segment fits, or more than one fits and the last one the walk
      processes is treated as the last: always under the corrected test, and
      as written only when the frame count is not a multiple of the stride. */
  lemma {:induction false} NoSegmentReadsUnloadedExactly(test: LastTest, frames: nat, n: nat)
    ensures NoSegmentReadsUnloaded(test, frames, n)
        <==> n == 0 || frames <= Stride(n)
             || (2 * Stride(n) < frames && (test == Corrected || frames % Stride(n) != 0))
  {
    var S := Stride(n);
    if n == 0 || frames <= S || (2 * S < frames && (test == Corrected || frames % S != 0)) {
      forall m: nat | Keyframe(m, n) + S < frames
        ensures !ReadsUnloaded(SplitBy(test, frames, Keyframe(m, n), n), frames, Keyframe(m, n), n)
      {
        if test == Corrected {
          CorrectedReadsUnloadedOnlyInSoleSegment(frames, m, n);
        } else {
          AsWrittenReadsUnloadedExactly(frames, m, n);
          if frames == Keyframe(m + 2, n) {
            KeyframeIsMultiple(m + 2, n);
            DivModUnique(frames, S, m + 2, 0);
          }
        }
      }
    } else if frames <= 2 * S {
      assert Keyframe(0, n) + S < frames;
      assert ReadsUnloaded(SplitBy(test, frames, Keyframe(0, n), n), frames, Keyframe(0, n), n);
    } else {
      var q := frames / S;
      DivModUnique(frames, S, q, 0);
      assert frames == q * S;
      assert 2 < q by {
        assert (q - 2) * S == frames - 2 * S;
      }
      var m := q - 2;
      KeyframeIsMultiple(m, n);
      KeyframeIsMultiple(m + 2, n);
      assert Keyframe(m, n) + S < frames by {
        assert m * S + S + S == q * S;
      }
      AsWrittenReadsUnloadedExactly(frames, m, n);
      assert ReadsUnloaded(SplitBy(test, frames, Keyframe(m, n), n), frames, Keyframe(m, n), n);
    }
  }
}
