/**
 The frame queue between the capture thread and the encode thread: capacity three,
 oldest frame dropped. Frames are named by their capture index.
 */
module FrameQueue {

  const QUEUE_CAPACITY := 3

  /** A frame taken from the queue, and how many frames had been captured by then. */
  datatype Pop = Pop(frame: nat, seen: nat)

  /** The queue with its history over every start/stop cycle. */
  datatype Ledger = Ledger(queue: seq<nat>, captured: nat, popped: seq<Pop>, dropped: set<nat>)

  function Push(l: Ledger): Ledger {
    var full := |l.queue| >= QUEUE_CAPACITY;
    Ledger((if full then l.queue[1..] else l.queue) + [l.captured],
           l.captured + 1,
           l.popped,
           if full then l.dropped + {l.queue[0]} else l.dropped)
  }

  function Take(l: Ledger): Ledger
    requires l.queue != []
  {
    l.(queue := l.queue[1..], popped := l.popped + [Pop(l.queue[0], l.captured)])
  }

  predicate IsPopped(l: Ledger, k: nat) { exists i :: 0 <= i < |l.popped| && l.popped[i].frame == k }

  ghost predicate Balanced(l: Ledger) {
    && |l.queue| <= QUEUE_CAPACITY && |l.queue| <= l.captured
    && (forall i :: 0 <= i < |l.queue| ==> l.queue[i] == l.captured - |l.queue| + i)
    && |l.popped| + |l.dropped| + |l.queue| == l.captured
    && (forall i, j :: 0 <= i < j < |l.popped| ==> l.popped[i].frame < l.popped[j].frame)
    && (forall i :: 0 <= i < |l.popped| ==>
          l.popped[i].frame < l.captured - |l.queue|
          && l.popped[i].frame < l.popped[i].seen <= l.popped[i].frame + QUEUE_CAPACITY)
    && (forall k :: k in l.dropped ==> k + QUEUE_CAPACITY < l.captured && !IsPopped(l, k))
    && (forall k: nat :: k < l.captured - |l.queue| ==> k in l.dropped || IsPopped(l, k))
  }

  lemma PushKeeps(l: Ledger)
    requires Balanced(l)
    ensures Balanced(Push(l))
  {
    var l' := Push(l);
    assert forall k: nat :: IsPopped(l', k) <==> IsPopped(l, k);
    if |l.queue| >= QUEUE_CAPACITY {
      assert l.queue[0] !in l.dropped && !IsPopped(l, l.queue[0]);
      assert |l'.queue| == |l.queue| && |l'.dropped| == |l.dropped| + 1;
    } else {
      assert |l'.queue| == |l.queue| + 1;
    }
  }

  lemma TakeKeeps(l: Ledger)
    requires Balanced(l) && l.queue != []
    ensures Balanced(Take(l))
  {
    var l' := Take(l);
    forall k: nat ensures IsPopped(l', k) <==> IsPopped(l, k) || k == l.queue[0] {
      if IsPopped(l, k) {
        var i :| 0 <= i < |l.popped| && l.popped[i].frame == k;
        assert l'.popped[i].frame == k;
      }
      assert l'.popped[|l.popped|].frame == l.queue[0];
    }
  }

  /** The queue as the object the two threads share; each method is one critical
      section under the queue's mutex. */
  class VideoPipeline {
    var frameQueue: seq<nat>
    var framesDropped: nat
    ghost var ledger: Ledger

    ghost predicate Valid()
      reads this
    {
      Balanced(ledger) && frameQueue == ledger.queue && framesDropped == |ledger.dropped|
    }

    constructor ()
      ensures Valid() && ledger == Ledger([], 0, [], {})
    {
      frameQueue, framesDropped := [], 0;
      ledger := Ledger([], 0, [], {});
    }

    /** The capture callback's critical section. */
    method OnFrame(frame: nat)
      requires Valid() && frame == ledger.captured
      modifies this
      ensures Valid() && ledger == Push(old(ledger))
      ensures |frameQueue| > 0 && frameQueue[|frameQueue| - 1] == frame
    {
      PushKeeps(ledger);
      if |frameQueue| >= QUEUE_CAPACITY {
        assert ledger.queue[0] !in ledger.dropped;
        frameQueue := frameQueue[1..];
        framesDropped := framesDropped + 1;
      }
      frameQueue := frameQueue + [frame];
      ledger := Push(ledger);
    }

    /** The encode loop's critical section once its predicate holds: a frame, or
        nothing when it is stopping and the queue is empty. */
    method TakeFrame(stopping: bool) returns (frame: nat, got: bool)
      requires Valid() && (frameQueue != [] || stopping)
      modifies this
      ensures Valid() && got == (old(frameQueue) != [])
      ensures ledger == if got then Take(old(ledger)) else old(ledger)
      ensures got ==> old(ledger.captured) - QUEUE_CAPACITY <= frame < old(ledger.captured)
      ensures got ==> forall i :: 0 <= i < |old(ledger.popped)| ==> old(ledger.popped)[i].frame < frame
    {
      if stopping && frameQueue == [] {
        return 0, false;
      }
      TakeKeeps(ledger);
      frame, got := frameQueue[0], true;
      frameQueue := frameQueue[1..];
      ledger := Take(ledger);
    }
  }
}
