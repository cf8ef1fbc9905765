/**
 The software encoder as the object the encode thread drives: frames go in with
 capture nanoseconds, packets come out with rescaled timestamps, a keyframe flag is
 taken by the next frame, and stop() flushes what the codec still holds.

 The codec makes no B-frames: it returns one packet per frame it accepted, in order,
 at whatever moment it likes, and all of them once it is told there are no more.
 */
module SoftwareEncoding {
  import opened Timestamps
  import opened Keyframes

  function AllToNs(ticks: seq<int>, fps: nat): seq<int>
    requires fps > 0
  {
    seq(|ticks|, i requires 0 <= i < |ticks| => ToNs(ticks[i], fps))
  }

  function Smaller(a: nat, b: nat): nat { if a < b then a else b }

  /** How an attempt to set up the codec ends: libx264 is missing; a context was made but
      could not be opened; it is open. */
  datatype Setup = Missing | Unopened | Opened

  class SoftwareEncoder {
    const fps: nat
    var running: bool
    var usable: bool               // the codec context is open
    var forceKeyframe: bool
    var codec: seq<int>            // the codec's ticks of frames not yet returned
    var delivered: seq<int>        // timestamps handed to the packet callback since the context was made
    ghost var sent: seq<int>       // capture times the codec accepted since the context was made
    ghost var events: seq<Event>   // every request and frame since the object was made

    /** Nothing is lost or reordered between the frames accepted and the packets made,
        and the flag is what the history of requests and frames says. */
    ghost predicate Valid()
      reads this
    {
      && fps > 0
      && delivered + AllToNs(codec, fps) == Packets(sent, fps)
      && (!usable ==> codec == []) && (usable ==> running)
      && forceKeyframe == Flag(Software, events)
    }

    constructor (fps: nat)
      requires fps > 0
      ensures Valid() && this.fps == fps && !running && !usable && events == [] && delivered == [] && sent == []
    {
      this.fps := fps;
      running, usable, forceKeyframe, codec, delivered, sent, events := false, false, false, [], [], [], [];
    }

    /** On an encoder that is already running a new context replaces the old one, and the
        frames the old one held are never delivered; if the new one cannot be opened the
        encoder goes on running without a usable codec. */
    method Initialize(setup: Setup) returns (ok: bool)
      requires Valid()
      modifies this
      ensures Valid() && ok == setup.Opened? && events == old(events)
      ensures running == (old(running) || ok) && usable == (ok || (setup.Missing? && old(usable)))
      ensures setup.Missing? ==> delivered == old(delivered) && sent == old(sent) && codec == old(codec)
      ensures !setup.Missing? ==> delivered == [] && sent == [] && codec == []
    {
      if setup.Missing? {
        return false;
      }
      codec, delivered, sent := [], [], [];
      usable, ok := setup.Opened?, setup.Opened?;
      if ok {
        running := true;
      }
    }

    method RequestKeyframe()
      requires Valid()
      modifies this
      ensures Valid() && events == old(events) + [Request]
      ensures delivered == old(delivered) && sent == old(sent) && codec == old(codec)
      ensures running == old(running) && usable == old(usable)
    {
      forceKeyframe := true;
      events := events + [Request];
      assert events[..|events| - 1] == old(events);
    }

    /** Hands over up to `ready` packets, oldest first. */
    method Drain(ready: nat)
      requires Valid()
      modifies this`codec, this`delivered
      ensures Valid() && old(delivered) <= delivered
      ensures |delivered| == |old(delivered)| + Smaller(ready, |old(codec)|)
      ensures |delivered| + |codec| == |sent|
    {
      AllDelivered();
      var n := 0;
      while n < ready && codec != []
        invariant n <= ready && old(delivered) <= delivered
        invariant delivered + AllToNs(codec, fps) == Packets(sent, fps)
        invariant n + |codec| == |old(codec)| && |delivered| == |old(delivered)| + n
        decreases |codec|
      {
        assert AllToNs(codec, fps) == [ToNs(codec[0], fps)] + AllToNs(codec[1..], fps);
        delivered, codec := delivered + [ToNs(codec[0], fps)], codec[1..];
        n := n + 1;
      }
    }

    /** Every accepted frame is a packet delivered, in order, or still in the codec. */
    lemma AllDelivered()
      requires Valid()
      ensures |delivered| + |codec| == |sent|
      ensures delivered == Packets(sent[..|delivered|], fps)
      ensures codec == [] <==> delivered == Packets(sent, fps)
    {
      var all := delivered + AllToNs(codec, fps);
      assert |all| == |delivered| + |codec| && |Packets(sent, fps)| == |sent|;
      assert delivered == all[..|delivered|];
      assert Packets(sent[..|delivered|], fps) == Packets(sent, fps)[..|delivered|];
    }

    /** `accepted`: the codec took the frame; `ready`: how many packets it has to give.
        They are handed over before the call returns: with a codec that is always ready,
        that is every frame accepted so far.
        The frame is marked as an intra picture exactly when a request came since the
        last frame that reached the flag; a frame the codec then refuses has used the
        request up. */
    method EncodeFrame(ns: nat, accepted: bool, ready: nat) returns (ok: bool, forced: bool)
      requires Valid()
      modifies this
      ensures Valid() && running == old(running) && usable == old(usable) && ok == (usable && accepted)
      ensures events == old(events) + [Frame(running)]
      ensures forced <==> running && Pending(old(events), |old(events)|)
      ensures running ==> !forceKeyframe
      ensures sent == (if ok then old(sent) + [ns] else old(sent)) && old(delivered) <= delivered
      ensures !ok ==> delivered == old(delivered) && codec == old(codec)
      ensures ok ==> |delivered| == |old(delivered)| + Smaller(ready, |old(codec)| + 1)
      ensures ok && ready > |old(codec)| ==> codec == [] && delivered == Packets(sent, fps)
    {
      FlagMeansPending(events, |events|);
      assert events[..|events|] == events;
      events := events + [Frame(running)];
      assert events[..|events| - 1] == old(events);
      if !running {
        return false, false;
      }
      forced, forceKeyframe := forceKeyframe, false;
      if !usable || !accepted {
        return false, forced;
      }
      assert AllToNs(codec + [ToTicks(ns, fps)], fps) == AllToNs(codec, fps) + [PacketPts(ns, fps)];
      assert Packets(sent + [ns], fps) == Packets(sent, fps) + [PacketPts(ns, fps)];
      codec, sent := codec + [ToTicks(ns, fps)], sent + [ns];
      Drain(ready);
      AllDelivered();
      ok := true;
    }

    /** Flushes: afterwards every accepted frame has been delivered once, in order, with
        its own timestamp. */
    method Stop()
      requires Valid()
      modifies this
      ensures Valid() && !running && !usable && events == old(events) && sent == old(sent)
      ensures delivered == Packets(sent, fps)
    {
      AllDelivered();
      Drain(|codec|);
      AllDelivered();
      running, usable := false, false;
    }
  }
}
