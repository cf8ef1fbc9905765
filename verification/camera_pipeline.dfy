/**
 The threads around the queue: capture callback, encode loop and the caller of
 start() and stop(), interleaved step by step over any number of cycles.
 */
module CameraPipeline {
  import opened FrameQueue

  /** The encode thread: at the loop head; about to lock the mutex and test the wait
      predicate; holding the mutex after finding the queue empty; asleep on the
      condition variable; with a frame in hand; gone. */
  datatype Encoder = NoThread | Top | AtWait | CheckedEmpty | Sleeping | Holding(frame: nat) | Exited

  /** The capture thread: off; between callbacks; between the push and notify_one. */
  datatype Capture = Off | Capturing | Pushed

  /** The caller: stopped; capture started but no encode thread yet; running; then
      inside stop() after joining capture, after notify_all, after request_stop. */
  datatype Phase = Stopped | Starting | Running | CaptureDown | Notified | StopRequested

  /** `checkedIn` and `sleptIn` are the caller's phases at the encode thread's last
      failed predicate test and last fall asleep; `afterStop` counts the frames given
      to the encoder since stop was requested. */
  datatype State = State(phase: Phase, capture: Capture, encoder: Encoder, ledger: Ledger, frameCount: nat,
                         encoded: seq<nat>, afterStop: nat, checkedIn: Phase, sleptIn: Phase)

  datatype Step =
    | StartCapture | StartThread                                  // start()
    | PushFrame | NotifyOne | CaptureEnds                         // the capture thread
    | LoopHead | TestPredicate | FallAsleep | EncodeFrame         // the encode thread
    | SpuriousWake
    | StopCapture | NotifyAll | RequestStop | Join                // stop()

  predicate Enabled(st: State, step: Step) {
    match step
    case StartCapture => st.phase.Stopped?
    case StartThread => st.phase.Starting?
    case PushFrame => st.capture.Capturing? && !st.encoder.CheckedEmpty?  // needs the mutex
    case NotifyOne => st.capture.Pushed?
    case CaptureEnds => st.capture.Capturing?
    case LoopHead => st.encoder.Top?
    case TestPredicate => st.encoder.AtWait?
    case FallAsleep => st.encoder.CheckedEmpty?
    case EncodeFrame => st.encoder.Holding?
    case SpuriousWake => st.encoder.Sleeping?
    case StopCapture => st.phase.Running? && !st.capture.Pushed?          // joins the capture thread
    case NotifyAll => st.phase.CaptureDown?
    case RequestStop => st.phase.Notified?
    case Join => st.phase.StopRequested? && st.encoder.Exited?
  }

  function Woken(e: Encoder): Encoder { if e.Sleeping? then AtWait else e }

  function Next(st: State, step: Step): State
    requires Enabled(st, step)
  {
    var stopping := st.phase.StopRequested?;
    match step
    case StartCapture => st.(phase := Starting, capture := Capturing)
    case StartThread => st.(phase := Running, encoder := Top, afterStop := 0)
    case PushFrame => st.(capture := Pushed, ledger := Push(st.ledger))
    case NotifyOne => st.(capture := Capturing, encoder := Woken(st.encoder), frameCount := st.frameCount + 1)
    case CaptureEnds => st.(capture := Off)
    case LoopHead => st.(encoder := if stopping then Exited else AtWait)
    case TestPredicate =>
      if st.ledger.queue != [] then st.(encoder := Holding(st.ledger.queue[0]), ledger := Take(st.ledger))
      else if stopping then st.(encoder := Exited)
      else st.(encoder := CheckedEmpty, checkedIn := st.phase)
    case FallAsleep => st.(encoder := Sleeping, sleptIn := st.phase)
    case EncodeFrame =>
      st.(encoder := Top, encoded := st.encoded + [st.encoder.frame],
          afterStop := if stopping then st.afterStop + 1 else st.afterStop)
    case SpuriousWake => st.(encoder := AtWait)
    case StopCapture => st.(phase := CaptureDown, capture := Off)
    case NotifyAll => st.(phase := Notified, encoder := Woken(st.encoder))
    case RequestStop => st.(phase := StopRequested)
    case Join => st.(phase := Stopped, encoder := NoThread)
  }

  const INITIAL := State(Stopped, Off, NoThread, Ledger([], 0, [], {}), 0, [], 0, Stopped, Stopped)

  /** `st'` is reached from `st` by some run of enabled steps. */
  predicate Runs(st: State, steps: seq<Step>, st': State)
    decreases |steps|
  {
    if steps == [] then st' == st
    else Enabled(st, steps[0]) && Runs(Next(st, steps[0]), steps[1..], st')
  }

  // ---- the invariant ----

  ghost predicate QueueInv(st: State) {
    && Balanced(st.ledger)
    && st.frameCount + (if st.capture.Pushed? then 1 else 0) == st.ledger.captured
    && |st.ledger.popped| == |st.encoded| + (if st.encoder.Holding? then 1 else 0)
    && (forall i :: 0 <= i < |st.encoded| ==> st.encoded[i] == st.ledger.popped[i].frame)
    && (st.encoder.Holding? ==> st.ledger.popped[|st.encoded|].frame == st.encoder.frame)
  }

  predicate InWait(st: State) { st.encoder.CheckedEmpty? || st.encoder.Sleeping? }

  predicate StopInv(st: State) {
    && (st.encoder.NoThread? <==> st.phase.Stopped? || st.phase.Starting?)
    && (!st.capture.Off? ==> st.phase.Starting? || st.phase.Running?)
    && (st.encoder.Exited? ==> st.phase.StopRequested?)
    && (st.phase.StopRequested? ==> st.afterStop <= 1)
    && (st.phase.StopRequested? && st.afterStop == 1 ==> st.encoder.Top? || st.encoder.Exited?)
    && (st.phase.Running? || st.phase.CaptureDown? || st.phase.Notified? ==> st.afterStop == 0)
    && (InWait(st) ==> !st.checkedIn.StopRequested?)
    && (InWait(st) ==> st.ledger.queue == [] || st.capture.Pushed?)
    && (st.encoder.CheckedEmpty? ==> st.ledger.queue == [])
    && (st.encoder.Sleeping? && (st.phase.Notified? || st.phase.StopRequested?) ==>
          st.sleptIn.Notified? || st.sleptIn.StopRequested?)
  }

  lemma NextKeeps(st: State, step: Step)
    requires QueueInv(st) && StopInv(st) && Enabled(st, step)
    ensures QueueInv(Next(st, step)) && StopInv(Next(st, step))
  {
    match step
    case PushFrame => PushKeeps(st.ledger);
    case TestPredicate => if st.ledger.queue != [] { TakeKeeps(st.ledger); }
    case _ =>
  }

  lemma {:induction false} RunsKeep(st: State, steps: seq<Step>, st': State)
    requires QueueInv(st) && StopInv(st) && Runs(st, steps, st')
    ensures QueueInv(st') && StopInv(st')
    decreases |steps|
  {
    if steps != [] {
      NextKeeps(st, steps[0]);
      RunsKeep(Next(st, steps[0]), steps[1..], st');
    }
  }

  // ---- frames ----

  /** In every interleaving over any number of cycles: the frames pushed are the frames
      popped plus those dropped plus those queued; the queue is the most recent frames,
      in order, at most three; popped frames increase; and the encoder receives exactly
      the popped frames, in order, but for the one in hand. */
  lemma FramesAreConserved(steps: seq<Step>, st: State)
    requires Runs(INITIAL, steps, st)
    ensures var l := st.ledger;
            && l.captured == |l.popped| + |l.dropped| + |l.queue| && |l.queue| <= QUEUE_CAPACITY
            && l.captured == st.frameCount + (if st.capture.Pushed? then 1 else 0)
            && (forall i :: 0 <= i < |l.queue| ==> l.queue[i] == l.captured - |l.queue| + i)
            && (forall i, j :: 0 <= i < j < |l.popped| ==> l.popped[i].frame < l.popped[j].frame)
            && |st.encoded| + (if st.encoder.Holding? then 1 else 0) == |l.popped|
            && (forall i :: 0 <= i < |st.encoded| ==> st.encoded[i] == l.popped[i].frame)
  {
    RunsKeep(INITIAL, steps, st);
  }

  /** Frame k is dropped exactly when frame k+3 was captured and k had not been popped;
      and a frame that is popped is, at that moment, one of the three newest. */
  lemma DroppedExactlyWhenOvertaken(steps: seq<Step>, st: State, k: nat)
    requires Runs(INITIAL, steps, st)
    ensures k in st.ledger.dropped <==> k + QUEUE_CAPACITY < st.ledger.captured && !IsPopped(st.ledger, k)
    ensures forall i :: 0 <= i < |st.ledger.popped| ==>
              st.ledger.popped[i].seen - QUEUE_CAPACITY <= st.ledger.popped[i].frame < st.ledger.popped[i].seen
  {
    RunsKeep(INITIAL, steps, st);
  }

  /** A frame in the queue never goes unnoticed: if the encode thread sleeps while the
      queue is not empty, the capture thread is about to notify it. */
  lemma SleeperIsAboutToBeNotified(steps: seq<Step>, st: State)
    requires Runs(INITIAL, steps, st) && st.encoder.Sleeping? && st.ledger.queue != []
    ensures Enabled(st, NotifyOne) && Next(st, NotifyOne).encoder.AtWait?
  {
    RunsKeep(INITIAL, steps, st);
  }

  /** Once capture has ended, by itself or because stop() joined it, no frame is captured
      before the next start. */
  lemma {:induction false} NoFramesAfterCaptureEnds(st: State, steps: seq<Step>, st': State)
    requires st.capture.Off? && Runs(st, steps, st') && StartCapture !in steps
    ensures st'.capture.Off? && st'.ledger.captured == st.ledger.captured && st'.frameCount == st.frameCount
    decreases |steps|
  {
    if steps != [] {
      assert steps[0] in steps;
      NoFramesAfterCaptureEnds(Next(st, steps[0]), steps[1..], st');
    }
  }

  /** Either ends it, whatever the queue holds. */
  lemma CaptureEndsForTheCycle(st: State, end: Step, steps: seq<Step>, st': State)
    requires Enabled(st, end) && (end.CaptureEnds? || end.StopCapture?)
    requires Runs(Next(st, end), steps, st') && StartCapture !in steps
    ensures st'.ledger.captured == st.ledger.captured
  {
    NoFramesAfterCaptureEnds(Next(st, end), steps, st');
  }

  // ---- stopping ----

  /** Once stop is requested at most one more frame reaches the encoder. */
  lemma AtMostOneFrameAfterStop(steps: seq<Step>, st: State)
    requires Runs(INITIAL, steps, st) && st.phase.StopRequested?
    ensures st.afterStop <= 1
  {
    RunsKeep(INITIAL, steps, st);
  }

  /** The encode thread is committed to a frame: it holds one, or is about to test the
      predicate while the queue is not empty. */
  predicate HasNext(st: State) { st.encoder.Holding? || (st.encoder.AtWait? && st.ledger.queue != []) }

  /** After the request exactly that frame still reaches the encoder, although the queue
      may hold more: whenever the thread has exited, one frame was encoded if it was
      committed to one when stop was requested, and none otherwise. */
  lemma {:induction false} FramesAfterStopExactly(st: State, steps: seq<Step>, st': State)
    requires StopInv(st) && QueueInv(st) && st.phase.StopRequested? && Join !in steps
    requires Runs(st, steps, st') && st'.encoder.Exited? && SpuriousWake !in steps
    ensures |st'.encoded| == |st.encoded| + if HasNext(st) then 1 else 0
    decreases |steps|
  {
    if steps != [] {
      assert steps[0] in steps;
      StopMakesProgress(st, steps[0]);
      NextKeeps(st, steps[0]);
      FramesAfterStopExactly(Next(st, steps[0]), steps[1..], st');
    }
  }

  /** The states from which stop() never returns. */
  predicate Doomed(st: State) { st.phase.StopRequested? && InWait(st) }

  function Measure(e: Encoder): nat {
    match e
    case Exited => 0
    case Top => 1
    case Holding(_) => 2
    case _ => 3
  }

  function EncodeStep(e: Encoder): Step {
    match e
    case Top => LoopHead
    case AtWait => TestPredicate
    case CheckedEmpty => FallAsleep
    case _ => EncodeFrame
  }

  /** After the request only the encode thread moves, and unless it is caught in the
      wait each of its steps brings it closer to the exit. */
  lemma StopMakesProgress(st: State, step: Step)
    requires StopInv(st) && st.phase.StopRequested? && Enabled(st, step) && step != SpuriousWake
    ensures step == Join || step == EncodeStep(st.encoder)
    ensures step != Join && !Doomed(st) ==>
              Next(st, step).phase.StopRequested? && !Doomed(Next(st, step))
              && Measure(Next(st, step).encoder) < Measure(st.encoder)
    ensures Doomed(st) ==> Doomed(Next(st, step))
  {
  }

  function DrainSteps(st: State): seq<Step>
    requires st.phase.StopRequested? && !Doomed(st) && !st.encoder.NoThread?
    decreases Measure(st.encoder)
  {
    if st.encoder.Exited? then [Join]
    else [EncodeStep(st.encoder)] + DrainSteps(Next(st, EncodeStep(st.encoder)))
  }

  lemma {:induction false} DrainReachesJoin(st: State)
    requires st.phase.StopRequested? && !Doomed(st) && !st.encoder.NoThread?
    ensures |DrainSteps(st)| <= Measure(st.encoder) + 1
    ensures SpuriousWake !in DrainSteps(st)
    ensures exists st' :: Runs(st, DrainSteps(st), st') && st'.phase.Stopped?
    decreases Measure(st.encoder)
  {
    if st.encoder.Exited? {
      assert Runs(Next(st, Join), [], Next(st, Join));
      assert [Join][1..] == [];
      assert Runs(st, [Join], Next(st, Join));
    } else {
      var step := EncodeStep(st.encoder);
      var st1 := Next(st, step);
      DrainReachesJoin(st1);
      var st' :| Runs(st1, DrainSteps(st1), st') && st'.phase.Stopped?;
      assert DrainSteps(st)[1..] == DrainSteps(st1);
      assert Runs(st, DrainSteps(st), st');
    }
  }

  lemma {:induction false} DoomedForever(st: State, steps: seq<Step>, st': State)
    requires StopInv(st) && Doomed(st) && Runs(st, steps, st') && SpuriousWake !in steps
    ensures Doomed(st')
    decreases |steps|
  {
    if steps != [] {
      assert steps[0] in steps;
      StopMakesProgress(st, steps[0]);
      assert StopInv(Next(st, steps[0]));
      DoomedForever(Next(st, steps[0]), steps[1..], st');
    }
  }

  /** After the request, stop() can return without a spurious wakeup exactly when the
      encode thread is not caught in the wait; and it is caught exactly when its last
      look at the queue, which was empty, came before the request and it went to sleep
      after the notification or has yet to. */
  lemma StopReturnsUnlessCaughtAsleep(steps: seq<Step>, st: State)
    requires Runs(INITIAL, steps, st) && st.phase.StopRequested?
    ensures (exists more, st' :: Runs(st, more, st') && st'.phase.Stopped? && SpuriousWake !in more) <==> !Doomed(st)
    ensures Doomed(st) ==>
              st.ledger.queue == [] && !st.checkedIn.StopRequested?
              && (st.encoder.Sleeping? ==> st.sleptIn.Notified? || st.sleptIn.StopRequested?)
    ensures Doomed(st) && Enabled(st, SpuriousWake) ==> !Doomed(Next(st, SpuriousWake))
  {
    RunsKeep(INITIAL, steps, st);
    if !Doomed(st) {
      DrainReachesJoin(st);
    } else {
      forall more, st' | Runs(st, more, st') && SpuriousWake !in more ensures !st'.phase.Stopped? {
        DoomedForever(st, more, st');
      }
    }
  }

  lemma RunsConcat(st: State, a: seq<Step>, mid: State, b: seq<Step>, st': State)
    requires Runs(st, a, mid) && Runs(mid, b, st')
    ensures Runs(st, a + b, st')
    decreases |a|
  {
    if a == [] {
      assert a + b == b;
    } else {
      RunsConcat(Next(st, a[0]), a[1..], mid, b, st');
      assert (a + b)[1..] == a[1..] + b;
    }
  }

  lemma RunsTwo(st: State, a: Step, b: Step)
    requires Enabled(st, a) && Enabled(Next(st, a), b)
    ensures Runs(st, [a, b], Next(Next(st, a), b))
  {
    assert [a, b][1..] == [b] && [b][1..] == [];
  }

  lemma IdleCamera() returns (steps: seq<Step>, st: State)
    ensures Runs(INITIAL, steps, st) && SpuriousWake !in steps
    ensures st.phase.Running? && st.capture.Capturing? && st.encoder.CheckedEmpty?
  {
    var s1 := Next(Next(INITIAL, StartCapture), StartThread);
    RunsTwo(INITIAL, StartCapture, StartThread);
    RunsTwo(s1, LoopHead, TestPredicate);
    st := Next(Next(s1, LoopHead), TestPredicate);
    steps := [StartCapture, StartThread] + [LoopHead, TestPredicate];
    RunsConcat(INITIAL, [StartCapture, StartThread], s1, [LoopHead, TestPredicate], st);
  }

  lemma SleepAfterNotify(s2: State) returns (steps: seq<Step>, st: State)
    requires s2.phase.Running? && s2.capture.Capturing? && s2.encoder.CheckedEmpty?
    ensures Runs(s2, steps, st) && SpuriousWake !in steps && Doomed(st)
  {
    var s3 := Next(Next(s2, StopCapture), NotifyAll);
    RunsTwo(s2, StopCapture, NotifyAll);
    RunsTwo(s3, FallAsleep, RequestStop);
    st := Next(Next(s3, FallAsleep), RequestStop);
    steps := [StopCapture, NotifyAll] + [FallAsleep, RequestStop];
    RunsConcat(s2, [StopCapture, NotifyAll], s3, [FallAsleep, RequestStop], st);
  }

  /** Such a state is reached by an ordinary stop() on an idle camera: the thread looks
      at the empty queue, stop() notifies, the thread falls asleep, stop is requested. */
  lemma StopCanHang()
    ensures exists steps, st :: Runs(INITIAL, steps, st) && Doomed(st) && SpuriousWake !in steps
  {
    var a, mid := IdleCamera();
    var b, st := SleepAfterNotify(mid);
    RunsConcat(INITIAL, a, mid, b, st);
  }
}
