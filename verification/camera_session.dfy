/**
 The camera session's lifecycle: start() and stop() drive the video pipeline and the
 WHIP publisher, each of which may fail, while the encode thread delivers packets.
 */
module CameraSession {
  import opened Common
  import opened Timestamps

  /** `stream` and `out` are the timestamps pushed since the publisher started and what
      was stamped on them. */
  datatype Publisher = Publisher(built: bool, running: bool, startPts: int, stream: seq<int>, out: seq<nat>)

  const NEW_PUBLISHER := Publisher(false, false, -1, [], [])

  function PublisherStart(p: Publisher, playing: bool): Publisher {
    if !p.built || p.running || !playing then p else p.(running := true, stream := [], out := [])
  }

  function PublisherStop(p: Publisher): Publisher {
    if !p.built || !p.running then p else p.(built := false, running := false, startPts := -1)
  }

  function PushPacket(p: Publisher, pts: int): Publisher {
    if !p.running then p
    else
      var start := if p.startPts < 0 then pts else p.startPts;
      p.(startPts := start, stream := p.stream + [pts], out := p.out + [Relative(pts, start)])
  }

  /** What has been stamped is what a stream of these packets should be stamped. */
  predicate Consistent(p: Publisher) {
    && Int64Nat(p.stream)
    && p.out == Published(-1, p.stream)
    && p.startPts == (if p.running && p.stream != [] then p.stream[0] else -1)
  }

  lemma {:induction false} PublishedAppend(start: int, pts: seq<int>, x: int)
    requires Int64Nat(pts + [x])
    ensures Published(start, pts + [x]) ==
            Published(start, pts) + [Relative(x, if start >= 0 then start else if pts == [] then x else pts[0])]
    decreases |pts|
  {
    if pts == [] {
      assert pts + [x] == [x] && [x][1..] == [];
    } else {
      var s := if start < 0 then pts[0] else start;
      assert (pts + [x])[0] == pts[0] && 0 <= (pts + [x])[0];
      assert forall i :: 0 <= i < |pts| ==> (pts[1..] + [x])[i] == (pts + [x])[i + 1];
      PublishedAppend(s, pts[1..], x);
      assert (pts + [x])[1..] == pts[1..] + [x];
    }
  }

  lemma PushKeeps(p: Publisher, pts: int)
    requires Consistent(p) && 0 <= pts < INT64_LIMIT
    ensures Consistent(PushPacket(p, pts))
  {
    if p.running { PublishedAppend(-1, p.stream, pts); }
  }

  /** The publisher as the object the encode thread calls. */
  class WhipPublisher {
    var built: bool
    var running: bool
    var streamStartPts: int
    ghost var pub: Publisher

    ghost predicate Valid()
      reads this
    {
      && Consistent(pub)
      && pub.built == built && pub.running == running && pub.startPts == streamStartPts
      && (running ==> built)
    }

    constructor ()
      ensures Valid() && pub == NEW_PUBLISHER
    {
      built, running, streamStartPts := false, false, -1;
      pub := NEW_PUBLISHER;
    }

    /** `playing`: the GStreamer pipeline reached PLAYING in time. */
    method Start(playing: bool) returns (ok: bool)
      requires Valid()
      modifies this
      ensures Valid() && pub == PublisherStart(old(pub), playing)
      ensures ok == running && running == (old(built) && (old(running) || playing)) && built == old(built)
    {
      if !built {
        return false;
      }
      if running {
        return true;
      }
      if !playing {
        return false;
      }
      running := true;
      pub := PublisherStart(pub, playing);
      ok := true;
    }

    method Stop()
      requires Valid()
      modifies this
      ensures Valid() && pub == PublisherStop(old(pub)) && !running
      ensures built == (old(built) && !old(running)) && (old(running) ==> streamStartPts == -1)
    {
      if !built || !running {
        return;
      }
      built, running, streamStartPts := false, false, -1;
      pub := PublisherStop(pub);
    }

    /** Stamps a packet, relative to the first one of the stream. */
    method Push(pts: int) returns (stamped: bool, relative: nat)
      requires Valid() && 0 <= pts < INT64_LIMIT
      modifies this
      ensures Valid() && pub == PushPacket(old(pub), pts)
      ensures stamped == running && running == old(running) && built == old(built)
      ensures if stamped then pub.stream == old(pub.stream) + [pts] else pub == old(pub)
      ensures stamped ==> |pub.out| > 0 && relative == pub.out[|pub.out| - 1]
    {
      PushKeeps(pub, pts);
      if !running {
        return false, 0;
      }
      if streamStartPts < 0 {
        streamStartPts := pts;
      }
      pub := PushPacket(pub, pts);
      stamped, relative := true, (pts - streamStartPts) % SPAN64;
    }
  }

  // ---- the session ----

  /** The encoder object: none yet; created but without a codec context; open, holding
      `pending` frames it was sent and has not yet returned as packets. */
  datatype Codec = NoCodec | Created | Open(pending: nat)

  /** Where the thread that calls start() and stop() is. */
  datatype Caller =
    | Resting
    | ReplacingEncoder | InitPublisher | StartPublisher | AbortFlush  // start()
    | OpenEncoder | StartCamera | AbortPublisher
    | StoppingCamera | Joining | Flushing | StoppingPublisher         // stop()

  /** `thread`: the encode thread exists. `late` counts packets delivered to a publisher
      that was not running. */
  datatype Session = Session(caller: Caller, isRunning: bool, publisher: Publisher, codec: Codec, thread: bool,
                             delivered: nat, late: nat)

  const NEW_SESSION := Session(Resting, false, NEW_PUBLISHER, NoCodec, false, 0, 0)

  datatype Step =
    | CallStart(captureReady: bool)      // pipeline_.initialize up to the capture device
    | ReplaceEncoder(created: bool)      // ... and the encoder; the old one is destroyed
    | BuildPublisher(ok: bool)
    | PlayPublisher(ok: bool)
    | EndAbortFlush
    | OpenCodec(ok: bool)
    | RunCamera(ok: bool)                // capture device and encode thread
    | HaltPublisherAfterAbort
    | CallStop
    | HaltCamera | JoinThread | EndFlush | HaltPublisher
    | SendFrame                          // the encode thread hands a frame to the codec
    | Deliver(pts: int)                  // a packet leaves the codec for pushPacket

  /** A packet leaves the codec while the encode thread runs, while stop() flushes, and
      while an encoder that is still open is destroyed. */
  predicate MayDeliver(s: Session) {
    s.codec.Open? && s.codec.pending > 0
    && (s.thread || s.caller.Flushing? || s.caller.AbortFlush? || s.caller.ReplacingEncoder?)
  }

  predicate Drained(s: Session) { s.codec.Open? ==> s.codec.pending == 0 }

  predicate Enabled(s: Session, step: Step) {
    match step
    case CallStart(_) => s.caller.Resting?
    case ReplaceEncoder(_) => s.caller.ReplacingEncoder? && Drained(s)
    case BuildPublisher(_) => s.caller.InitPublisher?
    case PlayPublisher(_) => s.caller.StartPublisher?
    case EndAbortFlush => s.caller.AbortFlush? && Drained(s)
    case OpenCodec(_) => s.caller.OpenEncoder?
    case RunCamera(_) => s.caller.StartCamera?
    case HaltPublisherAfterAbort => s.caller.AbortPublisher?
    case CallStop => s.caller.Resting?
    case HaltCamera => s.caller.StoppingCamera?
    case JoinThread => s.caller.Joining?
    case EndFlush => s.caller.Flushing? && Drained(s)
    case HaltPublisher => s.caller.StoppingPublisher?
    case SendFrame => s.thread && s.codec.Open?
    case Deliver(pts) => MayDeliver(s) && 0 <= pts < INT64_LIMIT
  }

  function Next(s: Session, step: Step): Session
    requires Enabled(s, step)
  {
    match step
    case CallStart(ready) => if s.isRunning || !ready then s else s.(caller := ReplacingEncoder)
    case ReplaceEncoder(created) =>
      if created then s.(codec := Created, caller := InitPublisher) else s.(codec := NoCodec, caller := Resting)
    case BuildPublisher(ok) =>
      s.(publisher := s.publisher.(built := ok), caller := if ok then StartPublisher else Resting)
    case PlayPublisher(ok) =>
      var p := PublisherStart(s.publisher, ok);
      s.(publisher := p, caller := if p.running then OpenEncoder else AbortFlush)
    case EndAbortFlush => s.(codec := if s.codec.Open? then Created else s.codec, caller := Resting)
    case OpenCodec(ok) => if ok then s.(codec := Open(0), caller := StartCamera) else s.(caller := AbortPublisher)
    case RunCamera(ok) =>
      if ok then s.(thread := true, isRunning := true, caller := Resting) else s.(caller := AbortPublisher)
    case HaltPublisherAfterAbort => s.(publisher := PublisherStop(s.publisher), caller := Resting)
    case CallStop => if s.isRunning then s.(caller := StoppingCamera) else s
    case HaltCamera => s.(caller := Joining)
    case JoinThread => s.(thread := false, caller := Flushing)
    case EndFlush => s.(codec := if s.codec.Open? then Created else s.codec, caller := StoppingPublisher)
    case HaltPublisher => s.(publisher := PublisherStop(s.publisher), isRunning := false, caller := Resting)
    case SendFrame => s.(codec := Open(s.codec.pending + 1))
    case Deliver(pts) =>
      s.(codec := Open(s.codec.pending - 1), publisher := PushPacket(s.publisher, pts), delivered := s.delivered + 1,
         late := if s.publisher.running then s.late else s.late + 1)
  }

  predicate Runs(s: Session, steps: seq<Step>, s': Session)
    decreases |steps|
  {
    if steps == [] then s' == s
    else Enabled(s, steps[0]) && Runs(Next(s, steps[0]), steps[1..], s')
  }

  /** Packets can exist only while the publisher runs, and start() and stop() switch it
      off only when none can be left. */
  predicate Inv(s: Session) {
    && Consistent(s.publisher) && s.late == 0
    && (s.publisher.running ==> s.publisher.built)
    && (s.thread || !Drained(s) ==> s.publisher.running && s.codec.Open?)
    && (s.isRunning ==> s.publisher.running)
    && (s.thread ==> s.isRunning)
    && (match s.caller
        case Resting => !s.isRunning ==> Drained(s) && !s.publisher.running
        case StoppingCamera => s.isRunning
        case Joining => s.isRunning
        case Flushing => s.isRunning && !s.thread
        case StoppingPublisher => s.isRunning && !s.thread && !s.codec.Open?
        case InitPublisher => !s.isRunning && !s.publisher.running && s.codec.Created?
        case StartPublisher => !s.isRunning && s.publisher.built && !s.publisher.running && s.codec.Created?
        case AbortFlush => !s.isRunning && !s.publisher.running && s.codec.Created?
        case OpenEncoder => !s.isRunning && s.publisher.running && s.codec.Created?
        case StartCamera => !s.isRunning && s.publisher.running && Drained(s) && s.codec.Open?
        case AbortPublisher => !s.isRunning && Drained(s)
        case _ => !s.isRunning && !s.publisher.running && Drained(s))
  }

  lemma NextKeeps(s: Session, step: Step)
    requires Inv(s) && Enabled(s, step)
    ensures Inv(Next(s, step))
  {
    match step
    case Deliver(pts) => PushKeeps(s.publisher, pts);
    case PlayPublisher(ok) => assert Published(-1, []) == [];
    case _ =>
  }

  lemma {:induction false} RunsKeep(s: Session, steps: seq<Step>, s': Session)
    requires Inv(s) && Runs(s, steps, s')
    ensures Inv(s')
    decreases |steps|
  {
    if steps != [] {
      NextKeeps(s, steps[0]);
      RunsKeep(Next(s, steps[0]), steps[1..], s');
    }
  }

  /** In every run of start and stop calls, whatever fails, every packet delivered to
      pushPacket, flushed ones included, reaches a running publisher, and what is
      stamped on it is the timestamp relative to the first packet of that stream. */
  lemma PacketsOnlyReachARunningPublisher(steps: seq<Step>, s: Session)
    requires Runs(NEW_SESSION, steps, s)
    ensures s.late == 0
    ensures s.publisher.out == Published(-1, s.publisher.stream)
    ensures s.thread || !Drained(s) ==> s.publisher.running
  {
    RunsKeep(NEW_SESSION, steps, s);
  }

  // ---- what was delivered ----

  /** The timestamps of the packets delivered since the publisher last started. */
  function SinceStart(steps: seq<Step>): seq<int> {
    if steps == [] then []
    else
      var before := SinceStart(steps[..|steps| - 1]);
      match steps[|steps| - 1]
      case Deliver(pts) => before + [pts]
      case PlayPublisher(ok) => if ok then [] else before
      case _ => before
  }

  lemma {:induction false} RunsSplit(s: Session, steps: seq<Step>, s': Session) returns (mid: Session)
    requires steps != [] && Runs(s, steps, s')
    ensures Runs(s, steps[..|steps| - 1], mid)
    ensures Enabled(mid, steps[|steps| - 1]) && Next(mid, steps[|steps| - 1]) == s'
    decreases |steps|
  {
    if |steps| == 1 {
      mid := s;
    } else {
      mid := RunsSplit(Next(s, steps[0]), steps[1..], s');
      assert steps[..|steps| - 1][1..] == steps[1..][..|steps| - 2];
    }
  }

  /** In every run the stream the publisher stamps is the packets delivered since it
      started, each once, in order. */
  lemma {:induction false} StreamIsWhatWasDelivered(steps: seq<Step>, s: Session)
    requires Runs(NEW_SESSION, steps, s)
    ensures s.publisher.stream == SinceStart(steps)
    decreases |steps|
  {
    if steps != [] {
      var mid := RunsSplit(NEW_SESSION, steps, s);
      RunsKeep(NEW_SESSION, steps[..|steps| - 1], mid);
      StreamIsWhatWasDelivered(steps[..|steps| - 1], mid);
    }
  }

  function Sent(steps: seq<Step>): nat {
    if steps == [] then 0 else Sent(steps[..|steps| - 1]) + if steps[|steps| - 1].SendFrame? then 1 else 0
  }

  /** In every run each frame sent to the codec has been delivered as a packet or is still
      in it: an open codec is given up only when it is empty. */
  lemma {:induction false} PacketsAreConserved(steps: seq<Step>, s: Session)
    requires Runs(NEW_SESSION, steps, s)
    ensures Sent(steps) == s.delivered + Pending(s)
    decreases |steps|
  {
    if steps != [] {
      var mid := RunsSplit(NEW_SESSION, steps, s);
      RunsKeep(NEW_SESSION, steps[..|steps| - 1], mid);
      PacketsAreConserved(steps[..|steps| - 1], mid);
    }
  }

  function Pending(s: Session): nat { if s.codec.Open? then s.codec.pending else 0 }

  // ---- stop() ends, with everything off ----

  predicate InStop(s: Session) {
    s.caller.StoppingCamera? || s.caller.Joining? || s.caller.Flushing? || s.caller.StoppingPublisher?
  }

  /** How many steps of stop() are left. */
  function StopRank(c: Caller): nat {
    match c
    case StoppingCamera => 4
    case Joining => 3
    case Flushing => 2
    case StoppingPublisher => 1
    case _ => 0
  }

  predicate OfTheThread(step: Step) { step.SendFrame? || step.Deliver? }

  /** At rest with nothing running: no thread, no open codec, no publisher. */
  predicate Off(s: Session) {
    s.caller.Resting? && !s.isRunning && !s.thread && !s.codec.Open? && !s.publisher.running
  }

  /** Inside stop() every step of its caller brings it closer to its end, and at its end
      everything is off; what the encode thread and the codec do meanwhile does not hold
      it up: after the join no frame is sent, and every packet leaves one less. */
  lemma StopMakesProgress(s: Session, step: Step)
    requires Inv(s) && InStop(s) && Enabled(s, step)
    ensures var s' := Next(s, step);
            && (OfTheThread(step) ==> s'.caller == s.caller)
            && (!OfTheThread(step) ==> StopRank(s'.caller) + 1 == StopRank(s.caller))
            && (InStop(s') || Off(s'))
            && (s.caller.Flushing? && OfTheThread(step) ==> step.Deliver? && s'.codec.pending + 1 == s.codec.pending)
  {
  }

  /** The next step towards the end of stop(). */
  function StopStep(s: Session): Step {
    match s.caller
    case StoppingCamera => HaltCamera
    case Joining => JoinThread
    case Flushing => if Drained(s) then EndFlush else Deliver(0)
    case _ => HaltPublisher
  }

  /** From everywhere inside stop() there is a way to its end, with steps of stop() and the
      packets still in the codec only, every one of which is delivered. */
  lemma {:induction false} StopCanFinish(s: Session) returns (steps: seq<Step>, s': Session)
    requires Inv(s) && InStop(s)
    ensures Runs(s, steps, s') && Off(s') && |steps| == StopRank(s.caller) + Pending(s)
    ensures forall i :: 0 <= i < |steps| ==> !steps[i].SendFrame? && !steps[i].CallStart?
    ensures s'.delivered == s.delivered + Pending(s) && s'.late == 0
    decreases StopRank(s.caller), Pending(s)
  {
    var step := StopStep(s);
    var s1 := Next(s, step);
    NextKeeps(s, step);
    var rest;
    if InStop(s1) {
      rest, s' := StopCanFinish(s1);
    } else {
      rest, s' := [], s1;
    }
    steps := [step] + rest;
    assert steps[1..] == rest;
  }

  /** stop() on a running session: it can end, in five steps and one for every packet
      still in the codec, and then everything is off and every packet was delivered. */
  lemma StopTurnsEverythingOff(steps: seq<Step>, s: Session) returns (more: seq<Step>, s': Session)
    requires Runs(NEW_SESSION, steps, s) && s.caller.Resting? && s.isRunning
    ensures |more| == 5 + Pending(s) && more[0] == CallStop && Runs(s, more, s') && Off(s')
    ensures forall i :: 0 <= i < |more| ==> !more[i].SendFrame? && !more[i].CallStart?
    ensures s'.delivered == s.delivered + Pending(s) && s'.late == 0
  {
    RunsKeep(NEW_SESSION, steps, s);
    NextKeeps(s, CallStop);
    var rest;
    rest, s' := StopCanFinish(Next(s, CallStop));
    more := [CallStop] + rest;
    assert more[1..] == rest;
  }

  /** However the threads interleave: a run that begins inside stop() holds at most as many
      steps of stop() as are left, and if it has come to rest without a call in between,
      everything is off. */
  lemma {:induction false} StopEndsOff(s: Session, steps: seq<Step>, s': Session)
    requires Inv(s) && (InStop(s) || Off(s)) && Runs(s, steps, s')
    requires forall i :: 0 <= i < |steps| ==> !steps[i].CallStart? && !steps[i].CallStop?
    ensures CallerSteps(steps) + StopRank(s'.caller) == StopRank(s.caller)
    ensures InStop(s') || Off(s')
    decreases |steps|
  {
    if steps != [] {
      if InStop(s) { StopMakesProgress(s, steps[0]); }
      NextKeeps(s, steps[0]);
      StopEndsOff(Next(s, steps[0]), steps[1..], s');
    }
  }

  function CallerSteps(steps: seq<Step>): nat {
    if steps == [] then 0 else (if OfTheThread(steps[0]) then 0 else 1) + CallerSteps(steps[1..])
  }

  // ---- start() ends, running exactly when nothing failed ----

  predicate InStart(s: Session) {
    match s.caller
    case ReplacingEncoder => true
    case InitPublisher => true
    case StartPublisher => true
    case OpenEncoder => true
    case StartCamera => true
    case _ => false
  }

  predicate Aborting(s: Session) { s.caller.AbortFlush? || s.caller.AbortPublisher? }

  function StartRank(c: Caller): nat {
    match c
    case ReplacingEncoder => 6
    case InitPublisher => 5
    case StartPublisher => 4
    case OpenEncoder => 3
    case StartCamera => 2
    case AbortFlush => 1
    case AbortPublisher => 1
    case _ => 0
  }

  /** A step of start() in which a component fails. */
  predicate Fails(step: Step) {
    match step
    case CallStart(ready) => !ready
    case ReplaceEncoder(created) => !created
    case BuildPublisher(ok) => !ok
    case PlayPublisher(ok) => !ok
    case OpenCodec(ok) => !ok
    case RunCamera(ok) => !ok
    case _ => false
  }

  /** The publisher, the codec, the camera and the encode thread run. */
  predicate On(s: Session) {
    s.caller.Resting? && s.isRunning && s.thread && s.codec.Open? && s.publisher.running
  }

  predicate AtRestOff(s: Session) { s.caller.Resting? && !s.isRunning && !s.thread && !s.publisher.running }

  /** Inside start() only its caller moves, closer to its end each time; it goes on, and in
      the end runs, as long as nothing fails, and otherwise comes to rest with nothing
      running. */
  lemma StartMakesProgress(s: Session, step: Step)
    requires Inv(s) && (InStart(s) || Aborting(s)) && Enabled(s, step)
    ensures var s' := Next(s, step);
            && OfStart(step) && StartRank(s'.caller) < StartRank(s.caller)
            && (InStart(s) && !Fails(step) ==> if s.caller.StartCamera? then On(s') else InStart(s'))
            && ((InStart(s) && Fails(step)) || Aborting(s) ==> Aborting(s') || AtRestOff(s'))
            && (Aborting(s) ==> !Fails(step))
  {
  }

  /** Every run from the call of start() on a session that is off, to where the caller
      next rests: it took at most seven steps, it ends running if and only if no component
      failed, and otherwise with nothing running. */
  lemma {:induction false} StartRunsExactly(s: Session, steps: seq<Step>, s': Session)
    requires Inv(s) && (InStart(s) || Aborting(s)) && Runs(s, steps, s')
    requires s'.caller.Resting? && forall i :: 0 <= i < |steps| ==> OfStart(steps[i])
    ensures |steps| <= StartRank(s.caller)
    ensures On(s') || AtRestOff(s')
    ensures On(s') <==> InStart(s) && forall i :: 0 <= i < |steps| ==> !Fails(steps[i])
    decreases |steps|
  {
    StartMakesProgress(s, steps[0]);
    NextKeeps(s, steps[0]);
    var s1 := Next(s, steps[0]);
    if |steps| > 1 {
      assert OfStart(steps[1]) && Enabled(s1, steps[1..][0]);
      StartRunsExactly(s1, steps[1..], s');
    }
  }

  /** A step that start() makes after its call. */
  predicate OfStart(step: Step) {
    step.ReplaceEncoder? || step.BuildPublisher? || step.PlayPublisher? || step.EndAbortFlush? || step.OpenCodec?
    || step.RunCamera? || step.HaltPublisherAfterAbort?
  }

  /** Which components work in one call of start(). */
  datatype Outcomes = Outcomes(camera: bool, encoder: bool, publisher: bool, playing: bool, codec: bool, capture: bool)

  function StartStep(c: Caller, o: Outcomes): Step {
    match c
    case ReplacingEncoder => ReplaceEncoder(o.encoder)
    case InitPublisher => BuildPublisher(o.publisher)
    case StartPublisher => PlayPublisher(o.playing)
    case OpenEncoder => OpenCodec(o.codec)
    case StartCamera => RunCamera(o.capture)
    case AbortFlush => EndAbortFlush
    case _ => HaltPublisherAfterAbort
  }

  /** Everything start() has yet to use works. */
  predicate RestWorks(c: Caller, o: Outcomes) {
    match c
    case ReplacingEncoder => o.encoder && o.publisher && o.playing && o.codec && o.capture
    case InitPublisher => o.publisher && o.playing && o.codec && o.capture
    case StartPublisher => o.playing && o.codec && o.capture
    case OpenEncoder => o.codec && o.capture
    case StartCamera => o.capture
    case _ => false
  }

  /** The encoder object start() leaves behind: none when it could not be made, and open,
      also when the camera then fails, once its codec was opened. */
  function CodecLeft(s: Session, o: Outcomes): Codec {
    match s.caller
    case ReplacingEncoder =>
      if !o.encoder then NoCodec else if o.publisher && o.playing && o.codec then Open(0) else Created
    case InitPublisher => if o.publisher && o.playing && o.codec then Open(0) else Created
    case StartPublisher => if o.playing && o.codec then Open(0) else Created
    case OpenEncoder => if o.codec then Open(0) else Created
    case _ => s.codec
  }

  /** From everywhere inside start() there is a way to its end, whatever works. */
  lemma {:induction false} StartCanFinish(s: Session, o: Outcomes) returns (steps: seq<Step>, s': Session)
    requires Inv(s) && (InStart(s) || Aborting(s))
    ensures Runs(s, steps, s') && s'.caller.Resting? && forall i :: 0 <= i < |steps| ==> OfStart(steps[i])
    ensures |steps| <= StartRank(s.caller) && if RestWorks(s.caller, o) then On(s') else AtRestOff(s')
    ensures s'.codec == CodecLeft(s, o) && s'.delivered == s.delivered
    decreases StartRank(s.caller)
  {
    var step := StartStep(s.caller, o);
    var s1 := Next(s, step);
    StartMakesProgress(s, step);
    NextKeeps(s, step);
    var rest;
    if s1.caller.Resting? {
      rest, s' := [], s1;
    } else {
      rest, s' := StartCanFinish(s1, o);
    }
    steps := [step] + rest;
    assert steps[1..] == rest;
  }

  /** start() on a session at rest that is not running, whichever of its components work:
      it can end, and it ends running if and only if they all do, and otherwise with
      nothing running. */
  lemma StartRunsIfEverythingWorks(steps: seq<Step>, s: Session, o: Outcomes) returns (more: seq<Step>, s': Session)
    requires Runs(NEW_SESSION, steps, s) && s.caller.Resting? && !s.isRunning
    ensures 1 <= |more| <= 7 && more[0] == CallStart(o.camera) && Runs(s, more, s')
    ensures if o == Outcomes(true, true, true, true, true, true) then On(s') else AtRestOff(s')
    ensures if !o.camera then s' == s
            else s'.codec == if !o.encoder then NoCodec
                             else if o.publisher && o.playing && o.codec then Open(0) else Created
  {
    RunsKeep(NEW_SESSION, steps, s);
    var s1 := Next(s, CallStart(o.camera));
    NextKeeps(s, CallStart(o.camera));
    if !o.camera {
      more, s' := [CallStart(false)], s;
      assert more[1..] == [];
    } else {
      var rest;
      rest, s' := StartCanFinish(s1, o);
      more := [CallStart(true)] + rest;
      assert more[1..] == rest;
    }
  }
}
