/**
 Keyframe requests: an atomic flag set by requests and taken by the next frame.
 */
module Keyframes {

  /** The hardware encoder inherits the empty requestKeyframe. */
  datatype Kind = Software | Hardware

  /** A request, or a call of encodeFrame; `open` when the encoder is running. */
  datatype Event = Request | Frame(open: bool)

  predicate Exchanges(e: Event) { e.Frame? && e.open }

  /** The flag after a history of events. */
  function Flag(kind: Kind, es: seq<Event>): bool {
    if es == [] then false
    else
      var last := es[|es| - 1];
      var before := Flag(kind, es[..|es| - 1]);
      if last.Request? then kind.Software? || before
      else if Exchanges(last) && kind.Software? then false
      else before
  }

  /** Frame i is marked as an intra picture. */
  predicate Forced(kind: Kind, es: seq<Event>, i: nat)
    requires i < |es|
  {
    Exchanges(es[i]) && kind.Software? && Flag(kind, es[..i])
  }

  /** No frame strictly between j and i took the flag. */
  predicate Untouched(es: seq<Event>, j: nat, i: nat)
    requires i <= |es|
  {
    forall m :: j < m < i ==> !Exchanges(es[m])
  }

  /** A request since the last frame that took the flag. */
  predicate Pending(es: seq<Event>, i: nat)
    requires i <= |es|
  {
    exists j: nat :: j < i && es[j].Request? && Untouched(es, j, i)
  }

  lemma {:induction false} FlagMeansPending(es: seq<Event>, i: nat)
    requires i <= |es|
    ensures Flag(Software, es[..i]) <==> Pending(es, i)
    decreases i
  {
    if i > 0 {
      assert es[..i][..i - 1] == es[..i - 1];
      FlagMeansPending(es, i - 1);
      if Pending(es, i - 1) && !Exchanges(es[i - 1]) {
        var j: nat :| j < i - 1 && es[j].Request? && Untouched(es, j, i - 1);
        assert Untouched(es, j, i);
      }
      if es[i - 1].Request? {
        assert Untouched(es, i - 1, i);
      }
      if Pending(es, i) {
        var j: nat :| j < i && es[j].Request? && Untouched(es, j, i);
        if j < i - 1 { assert Untouched(es, j, i - 1); }
      }
    }
  }

  /** Under every interleaving a frame is forced exactly when a request arrived since the
      previous frame's exchange; the hardware encoder forces none. */
  lemma ForcedExactlyWhenRequested(kind: Kind, es: seq<Event>, i: nat)
    requires i < |es|
    ensures Forced(kind, es, i) <==> Exchanges(es[i]) && kind.Software? && Pending(es, i)
  {
    FlagMeansPending(es, i);
  }

  /** A request is served by the first frame encoded after it, and only by that one:
      later frames are not forced until there is another request. */
  lemma RequestServedByNextFrame(es: seq<Event>, j: nat, i: nat)
    requires j < i < |es| && es[j].Request? && Exchanges(es[i]) && Untouched(es, j, i)
    ensures Forced(Software, es, i)
    ensures forall n :: i < n < |es| && (forall m :: i < m < n ==> !es[m].Request?) ==> !Forced(Software, es, n)
  {
    FlagMeansPending(es, i);
    forall n | i < n < |es| && (forall m :: i < m < n ==> !es[m].Request?) ensures !Forced(Software, es, n) {
      FlagMeansPending(es, n);
    }
  }

  function Requests(es: seq<Event>): nat {
    if es == [] then 0 else Requests(es[..|es| - 1]) + if es[|es| - 1].Request? then 1 else 0
  }

  function ForcedFrames(kind: Kind, es: seq<Event>): nat {
    if es == [] then 0
    else ForcedFrames(kind, es[..|es| - 1]) + if Forced(kind, es, |es| - 1) then 1 else 0
  }

  /** Forced frames never outnumber requests. */
  lemma {:induction false} ForcedAtMostRequests(kind: Kind, es: seq<Event>)
    ensures ForcedFrames(kind, es) + (if kind.Software? && Flag(kind, es) then 1 else 0) <= Requests(es)
    decreases |es|
  {
    if es != [] {
      ForcedAtMostRequests(kind, es[..|es| - 1]);
    }
  }
}
