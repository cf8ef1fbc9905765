/**
 How long a session's record lives, when the janitor finds it, and what the janitor can
 and cannot do when it is given the real time.
 */
module Lifetimes {
  import opened Common
  import opened Redis
  import opened Keys
  import opened SessionStore
  import opened StoreIndex
  import opened Signaling
  import opened Histories
  import opened Sweeping

  // ---- the life of a record ----

  /** Time passed, and the record of `id` is there if it was there and has not expired. */
  predicate SameLife(w: World, w': World, id: string) {
    var e, e' := Get(w.store.db, SessionKey(id)), Get(w'.store.db, SessionKey(id));
    && w.store.db.now <= w'.store.db.now
    && (e'.Some? <==> e.Some? && Alive(e.value, w'.store.db.now))
    && (e'.Some? ==> e'.value.expiry == e.value.expiry)
  }

  /** No request ends, prolongs or shortens the life of a session's record, lists it anew or
      changes its score. */
  lemma ExpiryNeverChanges(w: World, r: Request, id: string)
    requires WInv(w) && Possible(w, r) && id in w.store.used
    ensures SameLife(w, Handle(w, r).0, id) && KeepsScore(w.store.db, Handle(w, r).0.store.db, id)
  {
    assert Sound(w.store.db, SessionKey(id)) && Sound(w.store.db, ActiveKey);
    match r
    case CreateSession(_, _, _, _, _, _, _, _) => CreateRequestView(w, r);
    case JoinSession(_, _, _, _, _) => JoinEffect(w, r);
    case CloseSession(_, _, _, _) => CloseRequestKeeps(w, r);
    case Sweep(_, _, _) => SweepKeeps(w, r);
    case GetMySessions(user, listing) => PrunedMembers(w.store.db, user, listing.spared);
    case Tick(_) =>
  }

  lemma {:induction false} LifeOverRuns(w: World, rs: seq<Request>, id: string)
    requires WInv(w) && LegalRun(w, rs) && id in w.store.used
    ensures SameLife(w, Serve(w, rs), id)
    decreases |rs|
  {
    if rs == [] {
      assert Sound(w.store.db, SessionKey(id));
    } else {
      HandleKeeps(w, rs[0]);
      ExpiryNeverChanges(w, rs[0], id);
      LifeOverRuns(Handle(w, rs[0]).0, rs[1..], id);
    }
  }

  /** What a CreateSession leaves under the new id. */
  lemma CreatedRecord(w: World, r: Request)
    requires WInv(w) && r.CreateSession? && Possible(w, r) && r.user != "" && r.cameras > 0
    ensures var w' := Handle(w, r).0;
            var e := Get(w'.store.db, SessionKey(r.id));
            && w'.store.db.now == w.store.db.now && r.id in w'.store.used
            && (e.Some? <==> r.stored != Failed(0))
            && (e.Some? ==> e.value.expiry == if r.stored == Failed(1) then Never
                                              else At(w.store.db.now + 1000 * w.store.ttl))
  {
    var s := NewSession(r.user, r.cameras, r.id, r.code, r.createdAt);
    CreateRequestView(w, r);
    AfterStoreKeeps(w, r);
    assert Get(Handle(w, r).0.store.db, SessionKey(r.id)) == Get(AfterStore(w, r).store.db, SessionKey(r.id));
    match r.stored
    case Done => CreateHasView(w.store, s, r.scored);
    case Failed(n) =>
      var m := CutLength(w.store.db, s, r.scored, w.store.ttl, n);
      CutCreateHasView(w.store, s, r.scored, m);
  }

  /** Over every run after a CreateSession: the record is there exactly when the create got
      as far as its first command and either stopped there, or its lifetime is not over. So,
      from a lifetime after its creation on, it is gone exactly unless the create stopped
      after its first command. */
  lemma RecordLivesExactly(w: World, r: Request, rs: seq<Request>)
    requires WInv(w) && r.CreateSession? && Possible(w, r) && r.user != "" && r.cameras > 0
    requires LegalRun(Handle(w, r).0, rs)
    ensures var db := Serve(Handle(w, r).0, rs).store.db;
            Get(db, SessionKey(r.id)).Some? <==>
              match r.stored
              case Failed(0) => false
              case Failed(1) => true
              case _ => db.now < w.store.db.now + 1000 * w.store.ttl
    ensures var db := Serve(Handle(w, r).0, rs).store.db;
            db.now >= w.store.db.now + 1000 * w.store.ttl ==>
              (Get(db, SessionKey(r.id)).None? <==> r.stored != Failed(1))
  {
    HandleKeeps(w, r);
    CreatedRecord(w, r);
    LifeOverRuns(Handle(w, r).0, rs, r.id);
  }

  // ---- when the janitor finds a session ----

  /** At the real time a listed session, open or closed, is due exactly from the second of
      its score on; that leaves less than a second and the lag before its record expires. */
  lemma DueExactlyFromItsSecond(w: World, id: string)
    requires WInv(w) && id in ActiveScores(w.store.db) && Get(w.store.db, SessionKey(id)).Some?
    ensures var now, second := w.store.db.now, 1000 * ActiveScores(w.store.db)[id];
            var x := Get(w.store.db, SessionKey(id)).value.expiry;
            && (id in DueIds(w.store.db, now / 1000) <==> second <= now)
            && x.At? && second <= x.ms < second + 1000 + w.store.lag
            && (second <= now ==> now < x.ms < now + 1000 + w.store.lag)
  {
    assert Indexed(w.store, id) && Sound(w.store.db, SessionKey(id));
  }

  /** The janitor's window, from the second of the score to the expiry, is as long as the
      create's lag and what was left of the second it was scored in; so it is empty exactly
      when there was no lag and the session expires on a whole second. */
  lemma DueWindow(w: World, r: Request)
    requires WInv(w) && r.CreateSession? && Possible(w, r) && r.user != "" && r.cameras > 0 && r.stored.Done?
    ensures var db := Handle(w, r).0.store.db;
            && r.id in ActiveScores(db) && Get(db, SessionKey(r.id)).Some?
            && var second, x := 1000 * ActiveScores(db)[r.id], Get(db, SessionKey(r.id)).value.expiry;
               && x == At(w.store.db.now + 1000 * w.store.ttl)
               && x.ms - second == (w.store.db.now - r.scored) + r.scored % 1000
               && (second == x.ms <==> r.scored == w.store.db.now && x.ms % 1000 == 0)
  {
    CreatedRecord(w, r);
    CreatedScore(w, r);
  }

  lemma CreatedScore(w: World, r: Request)
    requires WInv(w) && r.CreateSession? && Possible(w, r) && r.user != "" && r.cameras > 0 && r.stored.Done?
    ensures var sc := ActiveScores(Handle(w, r).0.store.db);
            r.id in sc && sc[r.id] == Score(r.scored, w.store.ttl)
  {
    CreateRequestView(w, r);
    CreateHasView(w.store, NewSession(r.user, r.cameras, r.id, r.code, r.createdAt), r.scored);
    assert Get(Handle(w, r).0.store.db, ActiveKey) == Get(AfterStore(w, r).store.db, ActiveKey);
  }

  // ---- reconciling ----

  /** A CloseSession whose removal from the active set fails succeeds, and leaves the
      closed session listed. */
  lemma ClosedButListed(w: World, code: string, user: string, f: CloseFaults, s: Session)
    requires WInv(w) && code != "" && user != "" && Carries(w.store, s, code) && s.createdBy == user
    requires f.update == StillListed
    ensures var (w', reply) := Handle(w, CloseSession(code, user, true, f));
            && reply == SessionClosed && IsClosed(w'.store.db, s.id)
            && ActiveScores(w'.store.db) == ActiveScores(w.store.db)
  {
    LookupFinds(w.store, code);
    WriteClosedView(w.store, s.id, f.update);
  }

  /** A sweep that fails nowhere and is given the real time removes a listed id from the
      active set exactly when it has a record and the second of its score has begun. */
  lemma NextSweepReconcilesExactly(w: World, r: Request, id: string)
    requires WInv(w) && r.Sweep? && Possible(w, r) && FaultFree(r) && r.nowSec == w.store.db.now / 1000
    requires id in ActiveScores(w.store.db)
    ensures id !in ActiveScores(Handle(w, r).0.store.db) <==>
              Get(w.store.db, SessionKey(id)).Some? && 1000 * ActiveScores(w.store.db)[id] <= w.store.db.now
  {
    SweptId(w, r, id);
    assert Indexed(w.store, id);
  }

  // ---- the janitor at the real time ----

  /** No sweep of the run is given a time later than that at which it runs. */
  predicate RealTime(w: World, rs: seq<Request>)
    decreases |rs|
  {
    rs == []
    || ((rs[0].Sweep? ==> rs[0].nowSec <= w.store.db.now / 1000) && RealTime(Handle(w, rs[0]).0, rs[1..]))
  }

  predicate NoCloses(rs: seq<Request>) { forall i :: 0 <= i < |rs| ==> !rs[i].CloseSession? }

  /** The janitor has no window: a listed session's score is not before its expiry. */
  predicate NoWindow(w: World, id: string) {
    Get(w.store.db, SessionKey(id)).Some? && id in ActiveScores(w.store.db) ==>
      var x := Get(w.store.db, SessionKey(id)).value.expiry;
      x.At? && x.ms <= 1000 * ActiveScores(w.store.db)[id]
  }

  lemma SweepMisses(w: World, r: Request, id: string)
    requires WInv(w) && Possible(w, r) && IsOpen(w.store.db, id) && NoWindow(w, id)
    requires !r.CloseSession? && (r.Sweep? ==> r.nowSec <= w.store.db.now / 1000)
    ensures !IsClosed(Handle(w, r).0.store.db, id)
  {
    assert Sound(w.store.db, SessionKey(id));
    if IsClosed(Handle(w, r).0.store.db, id) {
      ClosedStep(w, r, id);
      assert false;
    }
  }

  /** However often the janitor runs: without a window, a session its owner does not close
      is never closed; it is open until it is gone, and what it left behind stays. */
  lemma {:induction false} TheJanitorMisses(w: World, rs: seq<Request>, id: string)
    requires WInv(w) && LegalRun(w, rs) && RealTime(w, rs) && NoCloses(rs) && id in w.store.used
    requires !IsClosed(w.store.db, id) && NoWindow(w, id)
    ensures !IsClosed(Serve(w, rs).store.db, id)
    ensures IsOpen(Serve(w, rs).store.db, id) || Gone(Serve(w, rs), id)
    decreases |rs|
  {
    if rs == [] {
      assert Indexed(w.store, id);
    } else {
      var w1 := Handle(w, rs[0]).0;
      HandleKeeps(w, rs[0]);
      ExpiryNeverChanges(w, rs[0], id);
      assert Fate(w.store, w1.store.db, id) && Indexed(w.store, id);
      if IsOpen(w.store.db, id) { SweepMisses(w, rs[0], id); }
      assert NoCloses(rs[1..]);
      TheJanitorMisses(w1, rs[1..], id);
    }
  }

  /** A worklist on which no call fails. */
  lemma {:induction false} CleanList(ids: set<string>) returns (todo: seq<(string, CloseFaults)>)
    ensures AllClean(todo) && (forall i, j :: 0 <= i < j < |todo| ==> todo[i].0 != todo[j].0)
    ensures Ids(todo) == ids
    decreases ids
  {
    if ids == {} {
      todo := [];
    } else {
      var first :| first in ids;
      var rest := CleanList(ids - {first});
      todo := [(first, NO_FAULTS)] + rest;
      IdsConcat([(first, NO_FAULTS)], rest);
      assert [(first, NO_FAULTS)][0].0 == first && Ids([(first, NO_FAULTS)]) == {first};
      forall j | 0 <= j < |rest| ensures rest[j].0 != first { assert rest[j].0 in Ids(rest); }
    }
  }

  lemma CleanSweep(db: Db, nowSec: int) returns (r: Request)
    ensures r.Sweep? && r.nowSec == nowSec && FaultFree(r) && Worklist(db, nowSec, r.listing.ok, r.todo)
  {
    var todo := CleanList(set id | id in DueIds(db, nowSec) && IsOpen(db, id));
    forall i | 0 <= i < |todo| ensures todo[i].0 in DueIds(db, nowSec) && IsOpen(db, todo[i].0) {
      assert todo[i].0 in Ids(todo);
    }
    forall id | id in DueIds(db, nowSec) && IsOpen(db, id) ensures exists i :: 0 <= i < |todo| && todo[i].0 == id {
      assert id in Ids(todo);
    }
    r := Sweep(nowSec, Listing(true, {}), todo);
  }

  /** Waiting for the second of the score and sweeping then. */
  lemma WaitAndSweep(w: World, id: string) returns (rs: seq<Request>)
    requires WInv(w) && IsOpen(w.store.db, id) && id in ActiveScores(w.store.db)
    requires var x := Get(w.store.db, SessionKey(id)).value.expiry;
             x.At? && 1000 * ActiveScores(w.store.db)[id] < x.ms
    ensures LegalRun(w, rs) && RealTime(w, rs) && NoCloses(rs) && IsClosed(Serve(w, rs).store.db, id)
  {
    var now, second := w.store.db.now, 1000 * ActiveScores(w.store.db)[id];
    var t := if second < now then now else second;
    assert Sound(w.store.db, SessionKey(id));
    var w1 := Wait(w, id, t);
    var r := CleanSweep(w1.store.db, t / 1000);
    SweptId(w1, r, id);
    rs := TickThenSweep(w, t, r);
  }

  lemma TickThenSweep(w: World, t: nat, r: Request) returns (rs: seq<Request>)
    requires r.Sweep? && Possible(Handle(w, Tick(t)).0, r) && r.nowSec <= Handle(w, Tick(t)).0.store.db.now / 1000
    ensures LegalRun(w, rs) && RealTime(w, rs) && NoCloses(rs)
    ensures Serve(w, rs) == Handle(Handle(w, Tick(t)).0, r).0
  {
    rs := [Tick(t)] + ([r] + []);
    ServeCons(w, Tick(t), [r] + []);
    ServeCons(Handle(w, Tick(t)).0, r, []);
    assert rs[1..] == [r] + [] && ([r] + [])[1..] == [];
  }

  lemma Wait(w: World, id: string, t: nat) returns (w': World)
    requires WInv(w) && IsOpen(w.store.db, id) && w.store.db.now <= t
    requires Alive(Get(w.store.db, SessionKey(id)).value, t)
    ensures w' == Handle(w, Tick(t)).0 && WInv(w') && w'.store.db.now == t && IsOpen(w'.store.db, id)
    ensures ActiveScores(w'.store.db) == ActiveScores(w.store.db)
  {
    w' := Handle(w, Tick(t)).0;
    HandleKeeps(w, Tick(t));
    assert Sound(w.store.db, ActiveKey);
    assert Get(w'.store.db, SessionKey(id)) == Get(w.store.db, SessionKey(id));
  }

  /** Some run of real-time sweeps without a CloseSession closes an open session, whose
      create was whole, exactly when its window is not empty. */
  lemma TheJanitorCanCloseExactly(w: World, id: string)
    requires WInv(w) && IsOpen(w.store.db, id) && id !in w.store.cut
    ensures id in ActiveScores(w.store.db) && Get(w.store.db, SessionKey(id)).value.expiry.At?
    ensures (exists rs :: LegalRun(w, rs) && RealTime(w, rs) && NoCloses(rs) && IsClosed(Serve(w, rs).store.db, id))
       <==> 1000 * ActiveScores(w.store.db)[id] < Get(w.store.db, SessionKey(id)).value.expiry.ms
  {
    assert Indexed(w.store, id) && Known(w.store, id);
    if 1000 * ActiveScores(w.store.db)[id] < Get(w.store.db, SessionKey(id)).value.expiry.ms {
      var rs := WaitAndSweep(w, id);
    } else {
      forall rs | LegalRun(w, rs) && RealTime(w, rs) && NoCloses(rs) ensures !IsClosed(Serve(w, rs).store.db, id) {
        TheJanitorMisses(w, rs, id);
      }
    }
  }
}
