/**
 Frames left in the queue when the pipeline stops, and what the next cycle makes of
 them.
 */
module Leftovers {
  import opened FrameQueue
  import opened CameraPipeline

  lemma QuickStop(st: State) returns (steps: seq<Step>, st': State)
    requires st.phase.Running? && st.capture.Capturing? && st.encoder.Top?
    ensures Runs(st, steps, st') && st'.phase.Stopped? && st'.ledger == st.ledger
  {
    var s1 := Next(Next(st, StopCapture), NotifyAll);
    var s2 := Next(Next(s1, RequestStop), LoopHead);
    RunsTwo(st, StopCapture, NotifyAll);
    RunsTwo(s1, RequestStop, LoopHead);
    RunsConcat(st, [StopCapture, NotifyAll], s1, [RequestStop, LoopHead], s2);
    st' := Next(s2, Join);
    assert [Join][1..] == [] && Runs(s2, [Join], st');
    RunsConcat(st, [StopCapture, NotifyAll] + [RequestStop, LoopHead], s2, [Join], st');
    steps := [StopCapture, NotifyAll] + [RequestStop, LoopHead] + [Join];
  }

  lemma FirstFrame(st: State) returns (steps: seq<Step>, st': State)
    requires st.phase.Stopped?
    ensures Runs(st, [StartCapture] + steps, st') && StartCapture !in steps
    ensures st'.phase.Running? && st'.capture.Capturing? && st'.encoder.Top?
    ensures st'.ledger == Push(st.ledger) && st'.encoded == st.encoded
  {
    var s1 := Next(Next(st, StartCapture), StartThread);
    RunsTwo(st, StartCapture, StartThread);
    RunsTwo(s1, PushFrame, NotifyOne);
    st' := Next(Next(s1, PushFrame), NotifyOne);
    RunsConcat(st, [StartCapture, StartThread], s1, [PushFrame, NotifyOne], st');
    steps := [StartThread, PushFrame, NotifyOne];
    assert [StartCapture] + steps == [StartCapture, StartThread] + [PushFrame, NotifyOne];
  }

  /** stop() leaves frames behind: one is captured and stop() follows before the encode
      thread comes to its loop head. */
  lemma StopLeavesFrames()
    ensures exists steps, st :: Runs(INITIAL, steps, st) && st.phase.Stopped? && st.ledger.queue != []
  {
    var a, mid := FirstFrame(INITIAL);
    var b, st := QuickStop(mid);
    RunsConcat(INITIAL, [StartCapture] + a, mid, b, st);
    assert st.ledger.queue == [0];
  }

  lemma OneFrameEncoded(st: State) returns (st': State)
    requires st.phase.Running? && st.encoder.Top? && st.ledger.queue != []
    ensures Runs(st, [LoopHead, TestPredicate] + [EncodeFrame], st')
    ensures st' == st.(ledger := Take(st.ledger), encoded := st.encoded + [st.ledger.queue[0]])
  {
    var s1 := Next(Next(st, LoopHead), TestPredicate);
    RunsTwo(st, LoopHead, TestPredicate);
    st' := Next(s1, EncodeFrame);
    assert [EncodeFrame][1..] == [] && Runs(s1, [EncodeFrame], st');
    RunsConcat(st, [LoopHead, TestPredicate], s1, [EncodeFrame], st');
  }

  /** While it runs the encode thread can work off the whole queue, in order. */
  lemma {:induction false} QueueWorkedOff(st: State) returns (steps: seq<Step>, st': State)
    requires st.phase.Running? && st.encoder.Top?
    ensures Runs(st, steps, st') && StartCapture !in steps
    ensures st'.encoded == st.encoded + st.ledger.queue && st'.ledger.captured == st.ledger.captured
    decreases |st.ledger.queue|
  {
    if st.ledger.queue == [] {
      steps, st' := [], st;
    } else {
      var s1 := OneFrameEncoded(st);
      var rest;
      rest, st' := QueueWorkedOff(s1);
      RunsConcat(st, [LoopHead, TestPredicate] + [EncodeFrame], s1, rest, st');
      steps := [LoopHead, TestPredicate] + [EncodeFrame] + rest;
      assert st.ledger.queue == [st.ledger.queue[0]] + st.ledger.queue[1..];
    }
  }

  /** `more` is one further cycle, or the beginning of one. */
  predicate NextCycle(st: State, more: seq<Step>, st': State) {
    more != [] && more[0] == StartCapture && StartCapture !in more[1..] && Runs(st, more, st')
  }

  lemma OneCycle(st: State, a: seq<Step>, mid: State, b: seq<Step>, st': State) returns (more: seq<Step>)
    requires Runs(st, [StartCapture] + a, mid) && Runs(mid, b, st') && StartCapture !in a && StartCapture !in b
    ensures NextCycle(st, more, st')
  {
    more := [StartCapture] + a + b;
    RunsConcat(st, [StartCapture] + a, mid, b, st');
    assert more[1..] == a + b;
  }

  /** stop() does not clear the queue: whatever it leaves, the next cycle can encode
      ahead of a frame of its own. */
  lemma LeftoversAreServedFirst(steps: seq<Step>, st: State) returns (more: seq<Step>, st': State)
    requires Runs(INITIAL, steps, st) && st.phase.Stopped? && st.ledger.queue != []
    ensures NextCycle(st, more, st') && st'.ledger.captured == st.ledger.captured + 1
    ensures |st'.encoded| > |st.encoded| + 1 && st'.encoded[..|st.encoded|] == st.encoded
    ensures st'.encoded[|st.encoded|] < st.ledger.captured == st'.encoded[|st'.encoded| - 1]
  {
    RunsKeep(INITIAL, steps, st);
    var q := Push(st.ledger).queue;
    assert |q| > 1 && q[0] < st.ledger.captured == q[|q| - 1];
    var a, mid := FirstFrame(st);
    var b;
    b, st' := QueueWorkedOff(mid);
    more := OneCycle(st, a, mid, b, st');
  }

  /** No frame taken from position `p` on was captured before `c`, and none is queued. */
  predicate FreshFrom(l: Ledger, p: nat, c: nat) {
    && (forall i :: p <= i < |l.popped| ==> c <= l.popped[i].frame)
    && (forall i :: 0 <= i < |l.queue| ==> c <= l.queue[i])
    && c <= l.captured && p <= |l.popped|
  }

  /** Nothing that happens later brings an older frame back. */
  lemma {:induction false} FreshStaysFresh(st: State, steps: seq<Step>, st': State, p: nat, c: nat)
    requires FreshFrom(st.ledger, p, c) && Runs(st, steps, st')
    ensures FreshFrom(st'.ledger, p, c)
    decreases |steps|
  {
    if steps != [] { FreshStaysFresh(Next(st, steps[0]), steps[1..], st', p, c); }
  }

  /** Whatever is encoded after a stop was captured after it or is one of the frames, at
      most three, that were still queued. */
  lemma StaleFramesAreTheLastThree(steps: seq<Step>, st: State, more: seq<Step>, st': State, i: nat)
    requires Runs(INITIAL, steps, st) && st.phase.Stopped? && Runs(st, more, st')
    requires |st.encoded| <= i < |st'.encoded|
    ensures st.ledger.captured - |st.ledger.queue| <= st'.encoded[i] && |st.ledger.queue| <= 3
  {
    RunsKeep(INITIAL, steps, st);
    RunsKeep(st, more, st');
    FreshStaysFresh(st, more, st', |st.encoded|, st.ledger.captured - |st.ledger.queue|);
  }

  /** With nothing left over, every frame encoded afterwards was captured afterwards. */
  lemma EmptyQueueMeansFreshFrames(steps: seq<Step>, st: State, more: seq<Step>, st': State)
    requires Runs(INITIAL, steps, st) && st.phase.Stopped? && st.ledger.queue == [] && Runs(st, more, st')
    ensures |st.encoded| <= |st'.encoded|
    ensures forall i :: |st.encoded| <= i < |st'.encoded| ==> st.ledger.captured <= st'.encoded[i] < st'.ledger.captured
  {
    RunsKeep(INITIAL, steps, st);
    RunsKeep(st, more, st');
    FreshStaysFresh(st, more, st', |st.encoded|, st.ledger.captured);
    EncodedGrows(st, more, st');
  }

  lemma {:induction false} EncodedGrows(st: State, steps: seq<Step>, st': State)
    requires Runs(st, steps, st')
    ensures st.encoded <= st'.encoded
    decreases |steps|
  {
    if steps != [] { EncodedGrows(Next(st, steps[0]), steps[1..], st'); }
  }
}
