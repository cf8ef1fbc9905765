/**
 The director's view: remote tracks in an ordered map, a list of camera slots, and
 one selected track on the main feed.
 */
module Director {

  import opened Common

  // ---- the order of track ids ----

  predicate Less(a: string, b: string) {
    b != [] && (a == [] || a[0] < b[0] || (a[0] == b[0] && Less(a[1..], b[1..])))
  }

  lemma {:induction false} LessTotal(a: string, b: string)
    ensures Less(a, b) || Less(b, a) || a == b
    decreases |a|
  {
    if a != [] && b != [] && a[0] == b[0] {
      LessTotal(a[1..], b[1..]);
      assert a == [a[0]] + a[1..] && b == [b[0]] + b[1..];
    }
  }

  lemma {:induction false} LessTransitive(a: string, b: string, c: string)
    requires Less(a, b) && Less(b, c)
    ensures Less(a, c)
    decreases |a|
  {
    if a != [] && a[0] == b[0] && b[0] == c[0] {
      LessTransitive(a[1..], b[1..], c[1..]);
    }
  }

  lemma {:induction false} LessIrreflexive(a: string)
    ensures !Less(a, a)
    decreases |a|
  {
    if a != [] { LessIrreflexive(a[1..]); }
  }

  // ---- the track map ----

  /** `serial` tells apart the objects made for one sid over time. */
  datatype Track = Track(sid: string, serial: nat)

  predicate Sorted(ts: seq<Track>) {
    forall i, j :: 0 <= i < j < |ts| ==> Less(ts[i].sid, ts[j].sid)
  }

  /** The position at which a sid is, or would be inserted. */
  function Position(ts: seq<Track>, sid: string): nat {
    if ts == [] || !Less(ts[0].sid, sid) then 0 else 1 + Position(ts[1..], sid)
  }

  predicate Attached(ts: seq<Track>, sid: string) { exists i :: 0 <= i < |ts| && ts[i].sid == sid }

  function Insert(ts: seq<Track>, i: nat, t: Track): seq<Track>
    requires i <= |ts|
  {
    ts[..i] + [t] + ts[i..]
  }

  function Remove(ts: seq<Track>, i: nat): seq<Track>
    requires i < |ts|
  {
    ts[..i] + ts[i + 1..]
  }

  lemma {:induction false} PositionSplits(ts: seq<Track>, sid: string)
    requires Sorted(ts)
    ensures Position(ts, sid) <= |ts|
    ensures forall i :: 0 <= i < Position(ts, sid) ==> Less(ts[i].sid, sid)
    ensures forall i :: Position(ts, sid) <= i < |ts| ==> ts[i].sid == sid || Less(sid, ts[i].sid)
    ensures Attached(ts, sid) <==> Position(ts, sid) < |ts| && ts[Position(ts, sid)].sid == sid
    decreases |ts|
  {
    if ts != [] {
      LessTotal(ts[0].sid, sid);
      if Less(ts[0].sid, sid) {
        PositionSplits(ts[1..], sid);
        assert forall i :: 0 < i < |ts| ==> ts[i] == ts[1..][i - 1];
        assert Attached(ts[1..], sid) ==> Attached(ts, sid);
        LessIrreflexive(sid);
        if Attached(ts, sid) {
          var i :| 0 <= i < |ts| && ts[i].sid == sid;
          assert ts[1..][i - 1].sid == sid;
        }
      } else {
        forall i | 0 < i < |ts| ensures Less(sid, ts[i].sid) {
          if ts[0].sid != sid { LessTransitive(sid, ts[0].sid, ts[i].sid); }
        }
        LessIrreflexive(sid);
      }
    }
  }

  lemma InsertKeepsSorted(ts: seq<Track>, t: Track)
    requires Sorted(ts) && !Attached(ts, t.sid)
    ensures Position(ts, t.sid) <= |ts| && Sorted(Insert(ts, Position(ts, t.sid), t))
  {
    PositionSplits(ts, t.sid);
  }

  /** DirectorSession: the map, changed in place, reporting the index it touched. */
  class DirectorSession {
    var tracks: seq<Track>  // the map's entries in key order
    var attached: nat       // objects made so far

    ghost predicate Valid()
      reads this
    {
      Sorted(tracks)
    }

    constructor ()
      ensures Valid() && tracks == [] && attached == 0
    {
      tracks, attached := [], 0;
    }

    method IndexOf(sid: string) returns (i: nat)
      requires Valid()
      ensures i == Position(tracks, sid)
    {
      i := 0;
      assert tracks[0..] == tracks;
      while i < |tracks| && Less(tracks[i].sid, sid)
        invariant i <= |tracks| && Position(tracks, sid) == i + Position(tracks[i..], sid)
      {
        assert tracks[i..][1..] == tracks[i + 1..];
        i := i + 1;
      }
    }

    /** `streamed`: the video stream could be created. */
    method AttachTrack(sid: string, streamed: bool) returns (added: bool, index: nat)
      requires Valid()
      modifies this
      ensures Valid() && index == Position(old(tracks), sid)
      ensures attached == old(attached) + if added then 1 else 0
      ensures added <==> streamed && !Attached(old(tracks), sid)
      ensures added ==> index <= |old(tracks)| && tracks == Insert(old(tracks), index, Track(sid, old(attached)))
      ensures !added ==> tracks == old(tracks)
    {
      index := IndexOf(sid);
      PositionSplits(tracks, sid);
      if index < |tracks| && tracks[index].sid == sid {
        return false, index;
      }
      if !streamed {
        return false, index;
      }
      InsertKeepsSorted(tracks, Track(sid, attached));
      tracks := tracks[..index] + [Track(sid, attached)] + tracks[index..];
      attached := attached + 1;
      added := true;
    }

    method DetachTrack(sid: string) returns (removed: bool, index: nat)
      requires Valid()
      modifies this`tracks
      ensures Valid() && index == Position(old(tracks), sid)
      ensures removed <==> Attached(old(tracks), sid)
      ensures removed ==> index < |old(tracks)| && tracks == Remove(old(tracks), index)
      ensures !removed ==> tracks == old(tracks)
    {
      index := IndexOf(sid);
      PositionSplits(tracks, sid);
      if index == |tracks| || tracks[index].sid != sid {
        return false, index;
      }
      tracks := tracks[..index] + tracks[index + 1..];
      removed := true;
    }
  }

  // ---- the view ----

  const MAX_CAMERAS := 4

  /** `listed` is the list's all_tracks, `main` the main feed's assigned track. */
  datatype View = View(listed: seq<Track>, active: int, main: Option<Track>)

  /** onActiveCameraChanged, run when the value did change. */
  function SetActive(v: View, ts: seq<Track>, active: int): View {
    if active == v.active then v
    else v.(active := active, main := if 0 <= active < |ts| then Some(ts[active]) else None)
  }

  function OnTrackAdded(v: View, ts: seq<Track>, index: nat): View {
    var v1 := v.(listed := ts);
    if index <= v.active then SetActive(v1, ts, v.active + 1) else v1
  }

  function OnTrackRemoved(v: View, ts: seq<Track>, index: nat): View {
    var v1 := v.(listed := ts);
    if index == v.active then SetActive(v1, ts, -1)
    else if index < v.active then SetActive(v1, ts, v.active - 1)
    else v1
  }

  /** The track on slot i of the list: none on the selected one. */
  function Slot(v: View, i: nat): Option<Track> {
    if i < MAX_CAMERAS && i < |v.listed| && i != v.active then Some(v.listed[i]) else None
  }

  /** `selected` is the track the director last clicked, while it is attached. */
  datatype Console = Console(tracks: seq<Track>, attached: nat, view: View, selected: Option<Track>)

  datatype Op = Attach(sid: string, streamed: bool) | Detach(sid: string) | Click(slot: nat)

  function Apply(c: Console, op: Op): Console
    requires Sorted(c.tracks)
  {
    match op
    case Attach(sid, streamed) =>
      var i := Position(c.tracks, sid);
      PositionSplits(c.tracks, sid);
      if !streamed || (i < |c.tracks| && c.tracks[i].sid == sid) then c
      else
        var ts := Insert(c.tracks, i, Track(sid, c.attached));
        c.(tracks := ts, attached := c.attached + 1, view := OnTrackAdded(c.view, ts, i))
    case Detach(sid) =>
      var i := Position(c.tracks, sid);
      PositionSplits(c.tracks, sid);
      if i == |c.tracks| || c.tracks[i].sid != sid then c
      else
        var ts := Remove(c.tracks, i);
        c.(tracks := ts, view := OnTrackRemoved(c.view, ts, i),
           selected := if c.selected == Some(c.tracks[i]) then None else c.selected)
    case Click(slot) =>
      if slot < MAX_CAMERAS && slot < |c.view.listed|
      then c.(view := SetActive(c.view, c.tracks, slot), selected := Some(c.view.listed[slot]))
      else c
  }

  predicate Inv(c: Console) {
    && Sorted(c.tracks) && c.view.listed == c.tracks
    && match c.selected
       case None => c.view.active == -1 && c.view.main == None
       case Some(t) =>
         && 0 <= c.view.active < |c.tracks| && c.tracks[c.view.active] == t && c.view.main == Some(t)
  }

  lemma AttachKeeps(c: Console, t: Track)
    requires Inv(c) && !Attached(c.tracks, t.sid)
    ensures Position(c.tracks, t.sid) <= |c.tracks|
    ensures var i := Position(c.tracks, t.sid);
            var ts := Insert(c.tracks, i, t);
            forall n :: Inv(c.(tracks := ts, attached := n, view := OnTrackAdded(c.view, ts, i)))
  {
    InsertKeepsSorted(c.tracks, t);
    var i, a := Position(c.tracks, t.sid), c.view.active;
    var ts := Insert(c.tracks, i, t);
    if 0 <= a { assert ts[if i <= a then a + 1 else a] == c.tracks[a]; }
  }

  lemma DetachKeeps(c: Console, i: nat)
    requires Inv(c) && i < |c.tracks|
    ensures var ts := Remove(c.tracks, i);
            Inv(c.(tracks := ts, view := OnTrackRemoved(c.view, ts, i),
                   selected := if c.selected == Some(c.tracks[i]) then None else c.selected))
  {
    var a := c.view.active;
    var ts := Remove(c.tracks, i);
    assert forall j :: 0 <= j < |ts| ==> ts[j] == c.tracks[if j < i then j else j + 1];
    if i != a && c.selected.Some? { SlotsDiffer(c.tracks, i, a); }
  }

  lemma ApplyKeeps(c: Console, op: Op)
    requires Inv(c)
    ensures Inv(Apply(c, op))
  {
    match op
    case Attach(sid, streamed) =>
      PositionSplits(c.tracks, sid);
      if streamed && !Attached(c.tracks, sid) { AttachKeeps(c, Track(sid, c.attached)); }
    case Detach(sid) =>
      PositionSplits(c.tracks, sid);
      if Attached(c.tracks, sid) { DetachKeeps(c, Position(c.tracks, sid)); }
    case Click(_) =>
  }

  function RunOps(c: Console, ops: seq<Op>): Console
    requires Inv(c)
    decreases |ops|
  {
    if ops == [] then c
    else
      ApplyKeeps(c, ops[0]);
      RunOps(Apply(c, ops[0]), ops[1..])
  }

  lemma {:induction false} RunKeeps(c: Console, ops: seq<Op>)
    requires Inv(c)
    ensures Inv(RunOps(c, ops))
    decreases |ops|
  {
    if ops != [] {
      ApplyKeeps(c, ops[0]);
      RunKeeps(Apply(c, ops[0]), ops[1..]);
    }
  }

  const EMPTY := Console([], 0, View([], -1, None), None)

  /** The view with its session: the session's signals drive the handlers, and every
      user or network event does to the console what `Apply` says. */
  class DirectorView {
    const session: DirectorSession
    var connected: bool  // the transport has this session, not null
    var allTracks: seq<Track>
    var activeCamera: int
    var main: Option<Track>
    ghost var selected: Option<Track>

    constructor (session: DirectorSession)
      requires session.Valid() && session.tracks == [] && session.attached == 0
      ensures this.session == session && connected && Now() == EMPTY
    {
      this.session, connected := session, true;
      allTracks, activeCamera, main, selected := [], -1, None, None;
    }

    ghost function Now(): Console
      reads this, session
    {
      Console(session.tracks, session.attached, View(allTracks, activeCamera, main), selected)
    }

    /** The transport drops the session; the list and the main feed keep what they show. */
    method Disconnect()
      modifies this`connected
      ensures !connected
    {
      connected := false;
    }

    /** Assigning activeCamera runs onActiveCameraChanged when the value changes; without a
        session that leaves the main feed alone. */
    method SetActiveCamera(index: int)
      modifies this`activeCamera, this`main
      ensures connected ==> Now().view == SetActive(old(Now().view), session.tracks, index)
      ensures !connected ==> Now().view == old(Now().view).(active := index)
    {
      if index == activeCamera {
        return;
      }
      activeCamera := index;
      if !connected {
        return;
      }
      if 0 <= activeCamera < |session.tracks| {
        main := Some(session.tracks[activeCamera]);
      } else {
        main := None;
      }
    }

    method TrackAdded(index: nat)
      requires connected
      modifies this`allTracks, this`activeCamera, this`main
      ensures Now().view == OnTrackAdded(old(Now().view), session.tracks, index)
    {
      allTracks := session.tracks;
      if index <= activeCamera {
        SetActiveCamera(activeCamera + 1);
      }
    }

    method TrackRemoved(index: nat)
      requires connected
      modifies this`allTracks, this`activeCamera, this`main
      ensures Now().view == OnTrackRemoved(old(Now().view), session.tracks, index)
    {
      allTracks := session.tracks;
      if index == activeCamera {
        SetActiveCamera(-1);
      } else if index < activeCamera {
        SetActiveCamera(activeCamera - 1);
      }
    }

    method Arrive(sid: string, streamed: bool)
      requires connected && Inv(Now())
      modifies this, session
      ensures Inv(Now()) && Now() == Apply(old(Now()), Attach(sid, streamed))
    {
      ApplyKeeps(Now(), Attach(sid, streamed));
      PositionSplits(session.tracks, sid);
      var added, index := session.AttachTrack(sid, streamed);
      if added {
        TrackAdded(index);
      }
    }

    method Leave(sid: string)
      requires connected && Inv(Now())
      modifies this, session
      ensures Inv(Now()) && Now() == Apply(old(Now()), Detach(sid))
    {
      ApplyKeeps(Now(), Detach(sid));
      PositionSplits(session.tracks, sid);
      var removed, index := session.DetachTrack(sid);
      if removed {
        selected := if selected == Some(old(session.tracks)[index]) then None else selected;
        TrackRemoved(index);
      }
    }

    /** A click on one of the four slots that has a track selects that track and changes
        nothing else; after the session is gone it moves activeCamera but not the main feed. */
    method Select(slot: nat)
      modifies this`activeCamera, this`main, this`selected
      ensures connected && old(Inv(Now())) ==> Inv(Now()) && Now() == Apply(old(Now()), Click(slot))
      ensures slot < 4 && slot < |allTracks| ==> activeCamera == slot
      ensures slot < 4 && slot < |allTracks| && connected && old(Inv(Now())) ==> main == Some(allTracks[slot])
      ensures slot >= 4 || slot >= |allTracks| ==> Now() == old(Now())
      ensures !connected ==> main == old(main)
    {
      if Inv(Now()) { ApplyKeeps(Now(), Click(slot)); }
      if slot < MAX_CAMERAS && slot < |allTracks| {
        selected := Some(allTracks[slot]);
        SetActiveCamera(slot);
      }
    }
  }

  // ---- what the history says ----

  lemma {:induction false} RunSnoc(c: Console, ops: seq<Op>, op: Op)
    requires Inv(c)
    ensures Inv(RunOps(c, ops)) && RunOps(c, ops + [op]) == Apply(RunOps(c, ops), op)
    decreases |ops|
  {
    RunKeeps(c, ops);
    if ops == [] {
      assert ops + [op] == [op] && [op][1..] == [];
      ApplyKeeps(c, op);
    } else {
      ApplyKeeps(c, ops[0]);
      RunSnoc(Apply(c, ops[0]), ops[1..], op);
      assert (ops + [op])[1..] == ops[1..] + [op];
    }
  }

  lemma LastOp(ops: seq<Op>)
    requires ops != []
    ensures var before, last := RunOps(EMPTY, ops[..|ops| - 1]), ops[|ops| - 1];
            Inv(before) && RunOps(EMPTY, ops) == Apply(before, last)
  {
    RunSnoc(EMPTY, ops[..|ops| - 1], ops[|ops| - 1]);
    assert ops[..|ops| - 1] + [ops[|ops| - 1]] == ops;
  }

  predicate Left(ops: seq<Op>, i: nat, sid: string) { exists j :: i < j < |ops| && ops[j] == Detach(sid) }

  lemma LeftGrows(ops: seq<Op>, i: nat, sid: string)
    requires i < |ops| - 1
    ensures Left(ops, i, sid) <==> Left(ops[..|ops| - 1], i, sid) || ops[|ops| - 1] == Detach(sid)
  {
    var before := ops[..|ops| - 1];
    if Left(before, i, sid) {
      var j :| i < j < |before| && before[j] == Detach(sid);
      assert ops[j] == Detach(sid);
    }
    if Left(ops, i, sid) && ops[|ops| - 1] != Detach(sid) {
      var j :| i < j < |ops| && ops[j] == Detach(sid);
      assert before[j] == Detach(sid);
    }
  }

  lemma InsertAttaches(ts: seq<Track>, i: nat, t: Track, sid: string)
    requires i <= |ts|
    ensures Attached(Insert(ts, i, t), sid) <==> t.sid == sid || Attached(ts, sid)
  {
    var ts' := Insert(ts, i, t);
    assert ts'[i] == t;
    if Attached(ts, sid) {
      var k :| 0 <= k < |ts| && ts[k].sid == sid;
      assert ts'[if k < i then k else k + 1] == ts[k];
    }
  }

  lemma RemoveDetaches(ts: seq<Track>, i: nat, sid: string)
    requires Sorted(ts) && i < |ts|
    ensures Attached(Remove(ts, i), sid) <==> ts[i].sid != sid && Attached(ts, sid)
  {
    var ts' := Remove(ts, i);
    assert forall k :: 0 <= k < |ts'| ==> ts'[k] == ts[if k < i then k else k + 1];
    if Attached(ts', sid) {
      var k :| 0 <= k < |ts'| && ts'[k].sid == sid;
      assert Less(ts[if k < i then k else i].sid, ts[if k < i then i else k + 1].sid);
      LessIrreflexive(sid);
    }
    if Attached(ts, sid) && ts[i].sid != sid {
      var k :| 0 <= k < |ts| && ts[k].sid == sid;
      assert ts'[if k < i then k else k - 1] == ts[k];
    }
  }

  /** What one event does to the map of tracks. */
  lemma ApplyTracks(c: Console, op: Op, sid: string)
    requires Inv(c)
    ensures Attached(Apply(c, op).tracks, sid)
       <==> op == Attach(sid, true) || (Attached(c.tracks, sid) && op != Detach(sid))
  {
    match op
    case Attach(s, streamed) =>
      PositionSplits(c.tracks, s);
      if streamed && !Attached(c.tracks, s) {
        InsertAttaches(c.tracks, Position(c.tracks, s), Track(s, c.attached), sid);
      }
    case Detach(s) =>
      PositionSplits(c.tracks, s);
      if Attached(c.tracks, s) { RemoveDetaches(c.tracks, Position(c.tracks, s), sid); }
    case Click(_) =>
  }

  /** The arrival at `i` came with a stream and the track has not left since. */
  predicate Stays(ops: seq<Op>, i: nat, sid: string)
    requires i < |ops|
  {
    ops[i] == Attach(sid, true) && !Left(ops, i, sid)
  }

  /** A sid is in the map exactly when it arrived with a stream and has not left since. */
  lemma {:induction false} AttachedExactly(ops: seq<Op>, sid: string)
    ensures Attached(RunOps(EMPTY, ops).tracks, sid) <==> exists i :: 0 <= i < |ops| && Stays(ops, i, sid)
    decreases |ops|
  {
    if ops != [] {
      var last := |ops| - 1;
      var before := ops[..last];
      LastOp(ops);
      AttachedExactly(before, sid);
      ApplyTracks(RunOps(EMPTY, before), ops[last], sid);
      forall i | 0 <= i < last ensures Stays(ops, i, sid) <==> Stays(before, i, sid) && ops[last] != Detach(sid) {
        LeftGrows(ops, i, sid);
      }
      assert Stays(ops, last, sid) <==> ops[last] == Attach(sid, true);
    }
  }

  /** The click at `i` is on one of the four slots and finds a track there. */
  predicate Hits(ops: seq<Op>, i: nat)
    requires i < |ops|
  {
    ops[i].Click? && ops[i].slot < 4 && ops[i].slot < |RunOps(EMPTY, ops[..i]).tracks|
  }

  function ClickedTrack(ops: seq<Op>, i: nat): Track
    requires i < |ops| && Hits(ops, i)
  {
    RunOps(EMPTY, ops[..i]).tracks[ops[i].slot]
  }

  predicate Shows(c: Console, t: Track) {
    t in c.tracks && c.view.active == Position(c.tracks, t.sid) && c.view.main == Some(t)
  }

  predicate ShowsNothing(c: Console) { c.view.active == -1 && c.view.main == None }

  /** The console's own selection is what the last click and the detaches since say. */
  lemma {:induction false} SelectionIsLastClick(ops: seq<Op>, i: nat)
    requires i < |ops| && Hits(ops, i) && forall j :: i < j < |ops| ==> !Hits(ops, j)
    ensures var t := ClickedTrack(ops, i);
            RunOps(EMPTY, ops).selected == if Left(ops, i, t.sid) then None else Some(t)
    decreases |ops|
  {
    var last := |ops| - 1;
    var before := ops[..last];
    var t := ClickedTrack(ops, i);
    LastOp(ops);
    var c := RunOps(EMPTY, before);
    if i < last {
      forall j | 0 <= j < last ensures Hits(before, j) <==> Hits(ops, j) { assert before[..j] == ops[..j]; }
      assert before[..i] == ops[..i];
      SelectionIsLastClick(before, i);
      LeftGrows(ops, i, t.sid);
      assert !Hits(ops, last);
      DeselectedExactly(c, ops[last]);
    } else {
      assert ops[..i] == before;
    }
  }

  /** Nothing but leaving deselects the selected track. */
  lemma DeselectedExactly(c: Console, op: Op)
    requires Inv(c) && !(op.Click? && op.slot < 4 && op.slot < |c.tracks|)
    ensures Apply(c, op).selected
         == if c.selected.Some? && op == Detach(c.selected.value.sid) then None else c.selected
  {
    match op
    case Detach(sid) =>
      PositionSplits(c.tracks, sid);
      var i := Position(c.tracks, sid);
      if c.selected.Some? && Attached(c.tracks, sid) {
        var a := c.view.active;
        LessIrreflexive(sid);
        if i != a { SlotsDiffer(c.tracks, i, a); }
      }
    case _ =>
  }

  /** Across every sequence of attaches, detaches and clicks: the track selected is the
      one at the clicked rank of the last click that found one, until it leaves. While it
      is there activeCamera is its rank in sid order and the main feed holds it; after it
      left, and before any such click, activeCamera is -1 and the main feed is empty. */
  lemma ActiveCameraFollowsTheSelection(ops: seq<Op>)
    ensures forall i :: 0 <= i < |ops| && Hits(ops, i) && (forall j :: i < j < |ops| ==> !Hits(ops, j)) ==>
              var t := ClickedTrack(ops, i);
              if Left(ops, i, t.sid) then ShowsNothing(RunOps(EMPTY, ops)) else Shows(RunOps(EMPTY, ops), t)
    ensures (forall j :: 0 <= j < |ops| ==> !Hits(ops, j)) ==> ShowsNothing(RunOps(EMPTY, ops))
    ensures RunOps(EMPTY, ops).view.listed == RunOps(EMPTY, ops).tracks && Sorted(RunOps(EMPTY, ops).tracks)
  {
    RunKeeps(EMPTY, ops);
    var c := RunOps(EMPTY, ops);
    if c.selected.Some? { SelectedIsShown(c); }
    forall i | 0 <= i < |ops| && Hits(ops, i) && (forall j :: i < j < |ops| ==> !Hits(ops, j))
      ensures c.selected == if Left(ops, i, ClickedTrack(ops, i).sid) then None else Some(ClickedTrack(ops, i))
    {
      SelectionIsLastClick(ops, i);
    }
    if forall j :: 0 <= j < |ops| ==> !Hits(ops, j) { NothingClicked(ops); }
  }

  lemma {:induction false} NothingClicked(ops: seq<Op>)
    requires forall j :: 0 <= j < |ops| ==> !Hits(ops, j)
    ensures RunOps(EMPTY, ops).selected == None
    decreases |ops|
  {
    if ops != [] {
      var last := |ops| - 1;
      LastOp(ops);
      forall j | 0 <= j < last ensures !Hits(ops[..last], j) { assert !Hits(ops, j) && ops[..last][..j] == ops[..j]; }
      NothingClicked(ops[..last]);
      RunKeeps(EMPTY, ops[..last]);
      assert !Hits(ops, last);
      DeselectedExactly(RunOps(EMPTY, ops[..last]), ops[last]);
    }
  }

  lemma SelectedIsShown(c: Console)
    requires Inv(c) && c.selected.Some?
    ensures Shows(c, c.selected.value)
  {
    var t := c.selected.value;
    PositionSplits(c.tracks, t.sid);
    var p, a := Position(c.tracks, t.sid), c.view.active;
    assert Attached(c.tracks, t.sid);
    LessIrreflexive(t.sid);
  }

  predicate ShownTwice(v: View) {
    || (exists i: nat :: i < MAX_CAMERAS && v.main.Some? && Slot(v, i) == v.main)
    || (exists i: nat, j: nat :: i < j < MAX_CAMERAS && Slot(v, i).Some? && Slot(v, i) == Slot(v, j))
  }

  lemma SlotsDiffer(ts: seq<Track>, i: nat, j: nat)
    requires Sorted(ts) && i < |ts| && j < |ts| && i != j
    ensures ts[i] != ts[j]
  {
    LessIrreflexive(ts[i].sid);
    assert Less(ts[i].sid, ts[j].sid) || Less(ts[j].sid, ts[i].sid);
  }

  /** After every handler has run, no track is on two feeds. */
  lemma NoTrackOnTwoFeeds(ops: seq<Op>)
    ensures !ShownTwice(RunOps(EMPTY, ops).view)
  {
    RunKeeps(EMPTY, ops);
    var c := RunOps(EMPTY, ops);
    forall i: nat | i < MAX_CAMERAS && c.view.main.Some? ensures Slot(c.view, i) != c.view.main {
      if Slot(c.view, i).Some? { SlotsDiffer(c.tracks, i, c.view.active); }
    }
    forall i: nat, j: nat | i < j < MAX_CAMERAS && Slot(c.view, i).Some? ensures Slot(c.view, i) != Slot(c.view, j) {
      if Slot(c.view, j).Some? { SlotsDiffer(c.tracks, i, j); }
    }
  }

  /** Inside onTrackAdded, between the new list and the new activeCamera, the selected
      track is on two feeds exactly when the new track sorts before it and it is within
      the visible slots. */
  lemma BetweenTheTwoAssignments(c: Console, t: Track)
    requires Inv(c) && !Attached(c.tracks, t.sid)
    ensures Position(c.tracks, t.sid) <= |c.tracks|
    ensures var i := Position(c.tracks, t.sid);
            var between := c.view.(listed := Insert(c.tracks, i, t));
            ShownTwice(between) <==> i <= c.view.active && c.view.active + 1 < MAX_CAMERAS
  {
    InsertKeepsSorted(c.tracks, t);
    var i := Position(c.tracks, t.sid);
    var ts := Insert(c.tracks, i, t);
    var between := c.view.(listed := ts);
    var a := c.view.active;
    if i <= a {
      assert ts[a + 1] == c.tracks[a];
      if a + 1 < MAX_CAMERAS { assert Slot(between, a + 1) == between.main; }
    } else if a >= 0 {
      assert ts[a] == c.tracks[a];
    }
    forall k: nat, j: nat | k < j < MAX_CAMERAS && Slot(between, k).Some? ensures Slot(between, k) != Slot(between, j) {
      if Slot(between, j).Some? { SlotsDiffer(ts, k, j); }
    }
    if !(i <= a && a + 1 < MAX_CAMERAS) {
      forall k: nat | k < MAX_CAMERAS && between.main.Some? ensures Slot(between, k) != between.main {
        if Slot(between, k).Some? { SlotsDiffer(ts, k, if i <= a then a + 1 else a); }
      }
    }
  }

  /** Inside onTrackRemoved, between the new list and the new activeCamera, it is on two
      feeds exactly when the removed track sorted before it and its new slot is visible. */
  lemma BetweenTheTwoAssignmentsOnRemoval(c: Console, i: nat)
    requires Inv(c) && i < |c.tracks|
    ensures var between := c.view.(listed := Remove(c.tracks, i));
            ShownTwice(between) <==> i < c.view.active <= MAX_CAMERAS
  {
    var ts := Remove(c.tracks, i);
    var between := c.view.(listed := ts);
    var a := c.view.active;
    assert forall j :: 0 <= j < |ts| ==> ts[j] == c.tracks[if j < i then j else j + 1];
    if i < a <= MAX_CAMERAS { assert Slot(between, a - 1) == between.main; }
    forall k: nat, j: nat | k < j < MAX_CAMERAS && Slot(between, k).Some? ensures Slot(between, k) != Slot(between, j) {
      if Slot(between, j).Some? { SlotsDiffer(c.tracks, if k < i then k else k + 1, if j < i then j else j + 1); }
    }
    if !(i < a <= MAX_CAMERAS) {
      forall k: nat | k < MAX_CAMERAS && between.main.Some? ensures Slot(between, k) != between.main {
        if Slot(between, k).Some? { SlotsDiffer(c.tracks, if k < i then k else k + 1, a); }
      }
    }
  }

  /** It happens: one track arrives and is selected, and one that sorts before it arrives. */
  lemma SelectedTrackShownTwice(a: string, b: string)
    requires Less(a, b)
    ensures var c := RunOps(EMPTY, [Attach(b, true), Click(0)]);
            && Inv(c) && !Attached(c.tracks, a)
            && ShownTwice(c.view.(listed := Insert(c.tracks, 0, Track(a, c.attached))))
  {
    var c := RunOps(EMPTY, [Attach(b, true), Click(0)]);
    var c1 := Apply(EMPTY, Attach(b, true));
    RunKeeps(EMPTY, [Attach(b, true), Click(0)]);
    ApplyKeeps(EMPTY, Attach(b, true));
    assert c1 == Console([Track(b, 0)], 1, View([Track(b, 0)], -1, None), None);
    assert [Attach(b, true), Click(0)][1..] == [Click(0)] && [Click(0)][1..] == [];
    assert c == RunOps(c1, [Click(0)]) == Apply(c1, Click(0));
    LessIrreflexive(a);
    if Less(b, a) { LessTransitive(a, b, a); }
    BetweenTheTwoAssignments(c, Track(a, c.attached));
  }
}
