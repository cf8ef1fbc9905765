/**
 From the camera to the publisher in one piece: when the frames of a stream are
 published in step with their capture times, whatever the queue drops.
 */
module PublishedStream {
  import opened Common
  import opened Arithmetic
  import opened FrameQueue
  import opened CameraPipeline
  import opened Leftovers
  import opened Timestamps

  /** The capture times of frames given by their capture index. */
  function CaptureTimes(frames: seq<nat>, times: seq<int>): seq<int>
    requires forall i :: 0 <= i < |frames| ==> frames[i] < |times|
  {
    seq(|frames|, i requires 0 <= i < |frames| => times[frames[i]])
  }

  /** The clock of the frames captured from `first` up to `last`: it does not go back,
      and its readings fit the publisher's timestamps. Other frames may have been timed
      by other clocks. */
  predicate Clock(times: seq<int>, first: nat, last: nat, fps: nat)
    requires fps > 0
  {
    && first <= last < |times|
    && (forall m, n :: first <= m <= n <= last ==> times[m] <= times[n])
    && (forall n :: first <= n <= last ==> 0 <= times[n] && PacketPts(times[n], fps) < INT64_LIMIT)
  }

  predicate Increasing(frames: seq<nat>) {
    forall i, j :: 0 <= i < j < |frames| ==> frames[i] < frames[j]
  }

  /** Whatever is dropped, the encoder gets frames in capture order. */
  lemma EncodedIncreases(steps: seq<Step>, st: State)
    requires Runs(INITIAL, steps, st)
    ensures Increasing(st.encoded)
    ensures forall i :: 0 <= i < |st.encoded| ==> st.encoded[i] < st.ledger.captured
  {
    RunsKeep(INITIAL, steps, st);
    forall i, j | 0 <= i < j < |st.encoded| ensures st.encoded[i] < st.encoded[j] {
      assert st.ledger.popped[i].frame < st.ledger.popped[j].frame;
    }
  }

  /** Dropping frames does not disturb the order of the rest. */
  lemma EncodedTimesAreOrdered(frames: seq<nat>, times: seq<int>, fps: nat)
    requires Increasing(frames) && frames != [] && fps > 0
    requires Clock(times, frames[0], frames[|frames| - 1], fps)
    ensures forall i :: 0 <= i < |frames| ==> frames[i] < |times|
    ensures Ordered(CaptureTimes(frames, times))
    ensures Int64Nat(Packets(CaptureTimes(frames, times), fps))
  {
    forall i | 0 <= i < |frames| ensures frames[0] <= frames[i] <= frames[|frames| - 1] {}
    var xs := CaptureTimes(frames, times);
    forall i | 0 <= i < |xs| ensures 0 <= PacketPts(xs[i], fps) < INT64_LIMIT {
      RoundTripError(times[frames[i]], fps);
    }
  }

  /** In every interleaving over any number of cycles: a stream of consecutive encoded
      frames, from the a-th to the b-th, whose clock does not go back is published from
      zero, without wrapping or going back, and each timestamp is within a frame period
      and a nanosecond of the time since the stream's first frame. */
  lemma StreamFollowsTheCamera(steps: seq<Step>, st: State, times: seq<int>, fps: nat, a: nat, b: nat, i: nat, j: nat)
    requires Runs(INITIAL, steps, st) && fps > 0 && a < b <= |st.encoded| && i <= j < b - a
    requires Clock(times, st.encoded[a], st.encoded[b - 1], fps)
    ensures var frames := st.encoded[a..b];
            && (forall n :: 0 <= n < |frames| ==> frames[n] < |times|)
            && var xs, out := CaptureTimes(frames, times), Published(-1, Packets(CaptureTimes(frames, times), fps));
               && |out| == b - a && out[0] == 0 && out[i] <= out[j] < INT64_LIMIT
               && fps * Abs(out[j] - (xs[j] - xs[0])) <= NS + fps
  {
    EncodedIncreases(steps, st);
    var frames := st.encoded[a..b];
    EncodedTimesAreOrdered(frames, times, fps);
    PublishedFollowsCapture(CaptureTimes(frames, times), fps, i, j);
  }

  // ---- the clock restarts with every cycle ----

  /** Every cycle has a clock of its own: the new frames' clock does not go back, and
      nothing ties it to that of the frames captured before. */
  predicate RestartedClock(times: seq<int>, first: nat, captured: nat, fps: nat)
    requires fps > 0
  {
    && |times| == captured && Int64Nat(times)
    && (forall n :: 0 <= n < captured ==> PacketPts(times[n], fps) < INT64_LIMIT)
    && (forall m, n :: first <= m <= n < captured ==> times[m] <= times[n])
  }

  /** What the publisher stamps on the frames encoded since `st`. */
  ghost predicate NeverWraps(st: State, st': State, times: seq<int>, fps: nat)
    requires fps > 0
  {
    && |st.encoded| <= |st'.encoded|
    && (forall i :: |st.encoded| <= i < |st'.encoded| ==> st'.encoded[i] < |times|)
    && NoneWraps(Published(-1, Packets(CaptureTimes(st'.encoded[|st.encoded|..], times), fps)))
  }

  predicate NoneWraps(out: seq<nat>) { forall i :: 0 <= i < |out| ==> out[i] < INT64_LIMIT }

  lemma FreshStreamNeverWraps(steps: seq<Step>, st: State, more: seq<Step>, st': State, times: seq<int>, fps: nat)
    requires Runs(INITIAL, steps, st) && st.phase.Stopped? && st.ledger.queue == []
    requires NextCycle(st, more, st') && fps > 0 && RestartedClock(times, st.ledger.captured, st'.ledger.captured, fps)
    ensures NeverWraps(st, st', times, fps)
  {
    GappyStreamNeverWrapsExactly(steps, st, more, st', times, fps);
    if |st.encoded| < |st'.encoded| {
      var frames := st'.encoded[|st.encoded|..];
      RunsConcat(INITIAL, steps, st, more, st');
      EncodedIncreases(steps + more, st');
      EmptyQueueMeansFreshFrames(steps, st, more, st');
      forall i | 0 <= i < |frames| ensures times[frames[0]] <= times[frames[i]] {}
      ZeroStaysZero(fps);
    }
  }

  const LATE := NS + 2

  lemma LateFits(fps: nat)
    requires fps > 0
    ensures 0 <= PacketPts(LATE, fps) < INT64_LIMIT && 0 <= PacketPts(0, fps) < INT64_LIMIT
    ensures LATE * fps > NS + fps
  {
    RoundTripError(LATE, fps);
    RoundTripError(0, fps);
    DriftBound(PacketPts(LATE, fps) - LATE, fps);
    DriftBound(PacketPts(0, fps), fps);
    LessTimes(1, fps, NS + 1);
  }

  lemma DriftBound(d: int, fps: nat)
    requires fps > 0 && 2 * (fps * Abs(d)) <= NS + fps
    ensures Abs(d) <= NS
  {
    if Abs(d) > NS {
      LessTimes(NS + 1, Abs(d), fps);
      LessTimes(1, fps, NS);
    }
  }

  /** Frames before the c-th were timed late on an earlier clock, frame c at its start. */
  function TwoClocks(c: nat): seq<int> { seq(c + 1, n => if n < c then LATE else 0) }

  lemma LateFirstFrameWraps(frames: seq<nat>, c: nat, fps: nat)
    requires fps > 0 && |frames| > 1 && frames[0] < c == frames[|frames| - 1]
    requires forall i :: 0 <= i < |frames| ==> frames[i] <= c
    ensures var out := Published(-1, Packets(CaptureTimes(frames, TwoClocks(c)), fps));
            |out| == |frames| && out[|out| - 1] > INT64_LIMIT
  {
    LateFits(fps);
    var xs := CaptureTimes(frames, TwoClocks(c));
    forall i | 0 <= i < |xs| ensures xs[i] == LATE || xs[i] == 0 {}
    assert xs[0] == LATE && xs[|xs| - 1] == 0;
    StaleFirstFrameWraps(xs, fps, |xs| - 1);
  }

  /** The earlier clock read more than a second when the new one starts. */
  lemma LeftoverStreamWraps(steps: seq<Step>, st: State, fps: nat)
    requires Runs(INITIAL, steps, st) && st.phase.Stopped? && st.ledger.queue != [] && fps > 0
    ensures exists more, st', times ::
              && NextCycle(st, more, st') && RestartedClock(times, st.ledger.captured, st'.ledger.captured, fps)
              && !NeverWraps(st, st', times, fps)
  {
    var more, st' := LeftoversAreServedFirst(steps, st);
    var c := st.ledger.captured;
    LateFits(fps);
    assert RestartedClock(TwoClocks(c), c, st'.ledger.captured, fps);
    RunsConcat(INITIAL, steps, st, more, st');
    EncodedIncreases(steps + more, st');
    LateFirstFrameWraps(st'.encoded[|st.encoded|..], c, fps);
    assert !NeverWraps(st, st', TwoClocks(c), fps);
  }

  /** With a clock that restarts, the next cycle's stream is published without wrapping,
      whatever the threads do and the clocks read, exactly when the queue was empty when
      the pipeline stopped. */
  lemma NextStreamNeverWrapsExactly(steps: seq<Step>, st: State, fps: nat)
    requires Runs(INITIAL, steps, st) && st.phase.Stopped? && fps > 0
    ensures (forall more, st', times ::
               NextCycle(st, more, st') && RestartedClock(times, st.ledger.captured, st'.ledger.captured, fps)
               ==> NeverWraps(st, st', times, fps))
        <==> st.ledger.queue == []
  {
    if st.ledger.queue == [] {
      forall more, st', times
        | NextCycle(st, more, st') && RestartedClock(times, st.ledger.captured, st'.ledger.captured, fps)
        ensures NeverWraps(st, st', times, fps)
      {
        FreshStreamNeverWraps(steps, st, more, st', times, fps);
      }
    } else {
      LeftoverStreamWraps(steps, st, fps);
    }
  }

  // ---- buffers without a timestamp ----

  /** Such a buffer is stamped 0; the others follow a clock that does not go back. */
  predicate GappyClock(times: seq<int>, first: nat, captured: nat, fps: nat)
    requires fps > 0
  {
    && |times| == captured
    && (forall n :: first <= n < captured ==> 0 <= times[n] && PacketPts(times[n], fps) < INT64_LIMIT)
    && (forall m, n :: first <= m <= n < captured && times[n] != 0 ==> times[m] <= times[n])
  }

  lemma ZeroStaysZero(fps: nat)
    requires fps > 0
    ensures PacketPts(0, fps) == 0
  {
    var y := Rescale(0, NS, fps);
    RescaleIsNearest(0, NS, fps);
    if y > 0 { LessTimes(1, y, fps); }
  }

  /** A stream with such buffers wraps exactly when one of them is in it and its first
      timestamp is not 0. */
  lemma UnstampedWrapsExactly(xs: seq<int>, fps: nat)
    requires fps > 0 && xs != [] && Int64Nat(Packets(xs, fps))
    requires forall i :: 0 <= i < |xs| ==> 0 <= xs[i] && (xs[i] == 0 || xs[0] <= xs[i])
    ensures NoneWraps(Published(-1, Packets(xs, fps))) <==> PacketPts(xs[0], fps) == 0 || 0 !in xs
  {
    var pts := Packets(xs, fps);
    PublishedIsRelativeToFirst(pts);
    ZeroStaysZero(fps);
    forall i | 0 <= i < |xs|
      ensures Published(-1, pts)[i] < INT64_LIMIT <==> PacketPts(xs[0], fps) == 0 || xs[i] != 0
    {
      WrapsExactlyWhenEarlier(pts, i);
      if xs[i] != 0 { RoundTripMonotone(xs[0], xs[i], fps); }
    }
  }

  /** So after a stop with an empty queue, the next cycle's stream is published without
      wrapping exactly when its first timestamp is 0 or no buffer without one is encoded. */
  lemma GappyStreamNeverWrapsExactly(steps: seq<Step>, st: State, more: seq<Step>, st': State, times: seq<int>,
                                     fps: nat)
    requires Runs(INITIAL, steps, st) && st.phase.Stopped? && st.ledger.queue == []
    requires NextCycle(st, more, st') && fps > 0 && GappyClock(times, st.ledger.captured, st'.ledger.captured, fps)
    ensures var a := |st.encoded|;
            && a <= |st'.encoded| && (forall i :: a <= i < |st'.encoded| ==> st'.encoded[i] < |times|)
            && (a < |st'.encoded| ==>
                  (NeverWraps(st, st', times, fps) <==>
                     PacketPts(times[st'.encoded[a]], fps) == 0 || 0 !in CaptureTimes(st'.encoded[a..], times)))
  {
    EmptyQueueMeansFreshFrames(steps, st, more, st');
    RunsConcat(INITIAL, steps, st, more, st');
    EncodedIncreases(steps + more, st');
    var a := |st.encoded|;
    assert forall i :: a <= i < |st'.encoded| ==> st'.encoded[i] < |times|;
    var frames := st'.encoded[a..];
    if a < |st'.encoded| {
      forall i | 0 <= i < |frames| ensures st.ledger.captured <= frames[0] <= frames[i] < |times| {}
      var xs := CaptureTimes(frames, times);
      forall i | 0 <= i < |xs| ensures 0 <= PacketPts(xs[i], fps) < INT64_LIMIT && (xs[i] == 0 || xs[0] <= xs[i]) {
        RoundTripError(times[frames[i]], fps);
      }
      assert xs[0] == times[st'.encoded[a]];
      UnstampedWrapsExactly(xs, fps);
      assert NeverWraps(st, st', times, fps) <==> NoneWraps(Published(-1, Packets(xs, fps)));
    }
  }
}
