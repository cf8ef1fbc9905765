/**
 What holds over whole runs of the signaling server: closed sessions stay closed
 and admit nobody, and every ingress of a stored session can be found again.
 */
module Histories {
  import opened Common
  import opened Decimals
  import opened Redis
  import opened Keys
  import opened SessionStore
  import opened StoreIndex
  import opened Signaling

  // ---- the invariant ----

  predicate Recorded(db: Db, id: string, ing: string) {
    && ing in MembersAt(db, IngressKey(id))
    && (Get(db, SessionKey(id)).Some? ==>
          Get(db, IngressKey(id)).value.expiry.NotBefore(Get(db, SessionKey(id)).value.expiry))
  }

  /** An existing ingress of a stored session is in that session's ingress set, and
      the set lives as long as the session, unless the ingress was leaked. */
  predicate Tracked(w: World, ing: string) {
    ing in w.ingresses ==>
      var id := w.ingresses[ing];
      && ing in w.owners && w.owners[ing] == id && id in w.store.used
      && (ing in w.leaked || Get(w.store.db, SessionKey(id)).None? || Recorded(w.store.db, id, ing))
  }

  predicate OwnMembers(w: World, id: string, ing: string) {
    ing in MembersAt(w.store.db, IngressKey(id)) ==> ing in w.owners && w.owners[ing] == id
  }

  ghost predicate Tracking(w: World) {
    && (forall ing :: Tracked(w, ing))
    && (forall id, ing :: OwnMembers(w, id, ing))
  }

  ghost predicate WInv(w: World) { Inv(w.store) && Tracking(w) }

  /** A store step that keeps the ingress sets of the sessions it keeps. */
  ghost predicate KeepsIngressSets(st: Store, db': Db) {
    && (forall id :: id in st.used && Get(db', SessionKey(id)).Some? ==>
          && Get(st.db, SessionKey(id)).Some?
          && Get(db', SessionKey(id)).value.expiry == Get(st.db, SessionKey(id)).value.expiry
          && Get(db', IngressKey(id)) == Get(st.db, IngressKey(id)))
    && (forall id :: MembersAt(db', IngressKey(id)) <= MembersAt(st.db, IngressKey(id)))
  }

  lemma TrackingKept(w: World, st': Store)
    requires Tracking(w) && KeepsIngressSets(w.store, st'.db) && w.store.used <= st'.used
    ensures Tracking(w.(store := st'))
  {
    var w' := w.(store := st');
    forall ing ensures Tracked(w', ing) {
      assert Tracked(w, ing);
    }
    forall id, ing ensures OwnMembers(w', id, ing) {
      assert OwnMembers(w, id, ing);
      assert MembersAt(st'.db, IngressKey(id)) <= MembersAt(w.store.db, IngressKey(id));
    }
  }

  // ---- what a step does to one session ----

  /** Between two states a session keeps its record, is closed, expires, or is new. */
  predicate Fate(st: Store, db': Db, id: string) {
    || GetSession(db', id) == GetSession(st.db, id)
    || (GetSession(st.db, id).Ok? && GetSession(db', id) == Ok(GetSession(st.db, id).value.(status := CLOSED)))
    || Get(db', SessionKey(id)).None?
    || id !in st.used
  }

  // ---- side writes ----

  function SideEntry(db: Db, k: Key, a: Action, ttl: nat, c: Call): Option<Entry> {
    var e := Get(db, k);
    var e1 := Effect(a, e, db.now);
    match c
    case Done => Effect(Expire(ttl), e1, db.now)
    case Failed(n) => if n == 0 then e else if n == 1 then e1 else Effect(Expire(ttl), e1, db.now)
  }

  lemma SendTwo(db: Db, k: Key, a: Action, ttl: nat, c: Call)
    ensures Send(db, [Command(k, a), Command(k, Expire(ttl))], c)
         == Space(Put(db.entries, k, SideEntry(db, k, a, ttl, c)), db.now)
  {
    var p := [Command(k, a), Command(k, Expire(ttl))];
    RunSameKey(db, k, a, Expire(ttl));
    RunOne(db, Command(k, a));
    assert p[..0] == [] && p[..1] == [Command(k, a)] && p[..2] == p;
    assert Put(db.entries, k, Get(db, k)) == db.entries;
  }

  lemma GrantSendKeeps(w: World, id: string, user: string, role: string, c: Call)
    requires WInv(w)
    ensures var w' := WithDb(w, Send(w.store.db, GrantPipeline(id, user, role, w.store.ttl), c));
            && WInv(w') && w'.store.db.now == w.store.db.now
            && (forall k :: k != AccessKey(id) ==> Get(w'.store.db, k) == Get(w.store.db, k))
  {
    var st, db, k := w.store, w.store.db, AccessKey(id);
    SendTwo(db, k, HSetRole(user, role), 1000 * st.ttl, c);
    assert Sound(db, k);
    var e := SideEntry(db, k, HSetRole(user, role), 1000 * st.ttl, c);
    SideEntryKeeps(st, k, e);
    var st' := st.(db := Space(Put(db.entries, k, e), db.now));
    forall k' | k' != k ensures Get(st'.db, k') == Get(db, k') {}
    TrackingKept(w, st');
  }

  /** Recording a new ingress, completely or in part. */
  lemma RecordSendKeeps(w: World, id: string, ing: string, c: Call)
    requires WInv(w) && ing !in w.owners && id in w.store.used && StageOf(w.store, id) >= EXPIRES
    ensures var db' := Send(w.store.db, IngressPipeline(id, ing, w.store.ttl), c);
            var w' := World(w.store.(db := db'), w.ingresses[ing := id], w.owners[ing := id],
                            if c.Done? then w.leaked else w.leaked + {ing});
            && WInv(w') && db'.now == w.store.db.now
            && (forall k :: k != IngressKey(id) ==> Get(db', k) == Get(w.store.db, k))
  {
    var st, db, k := w.store, w.store.db, IngressKey(id);
    SendTwo(db, k, SAdd(ing), 1000 * st.ttl, c);
    assert Sound(db, k);
    var e := SideEntry(db, k, SAdd(ing), 1000 * st.ttl, c);
    SideEntryKeeps(st, k, e);
    var st' := st.(db := Space(Put(db.entries, k, e), db.now));
    forall k' | k' != k ensures Get(st'.db, k') == Get(db, k') {}
    RecordTracking(w, id, ing, c, st');
  }

  lemma RecordTracking(w: World, id: string, ing: string, c: Call, st': Store)
    requires WInv(w) && ing !in w.owners && id in w.store.used && st'.used == w.store.used
    requires StageOf(w.store, id) >= EXPIRES
    requires Get(st'.db, IngressKey(id)) == SideEntry(w.store.db, IngressKey(id), SAdd(ing), 1000 * w.store.ttl, c)
    requires forall k :: k != IngressKey(id) ==> Get(st'.db, k) == Get(w.store.db, k)
    ensures Tracking(World(st', w.ingresses[ing := id], w.owners[ing := id],
                           if c.Done? then w.leaked else w.leaked + {ing}))
  {
    var w' := World(st', w.ingresses[ing := id], w.owners[ing := id], if c.Done? then w.leaked else w.leaked + {ing});
    var db := w.store.db;
    assert Sound(db, IngressKey(id)) && Known(w.store, id) && Sound(db, SessionKey(id));
    forall i ensures Tracked(w', i) {
      assert Tracked(w, i);
    }
    forall j, i ensures OwnMembers(w', j, i) {
      assert OwnMembers(w, j, i) && OwnMembers(w, j, ing);
    }
  }

  // ---- closing ----

  predicate ClosedOrSame(db: Db, db': Db, id: string) {
    || GetSession(db', id) == GetSession(db, id)
    || (GetSession(db, id).Ok? && GetSession(db', id) == Ok(GetSession(db, id).value.(status := CLOSED)))
  }

  /** Sessions only get closed, keeping their expiry, and ids only leave the active
      set; nothing else in the key space changes. */
  ghost predicate OnlyCloses(db: Db, db': Db) {
    && db'.now == db.now
    && (forall id :: ClosedOrSame(db, db', id))
    && (forall id :: Get(db', SessionKey(id)).Some? == Get(db, SessionKey(id)).Some?)
    && (forall id :: Get(db', SessionKey(id)).Some? ==>
          Get(db', SessionKey(id)).value.expiry == Get(db, SessionKey(id)).value.expiry)
    && (forall k: Key :: !k.SessionKey? && k != ActiveKey ==> Get(db', k) == Get(db, k))
    && (forall id :: KeepsScore(db, db', id))
  }

  /** An id in the active set was there before, with the same score. */
  predicate KeepsScore(db: Db, db': Db, id: string) {
    id in ActiveScores(db') ==> id in ActiveScores(db) && ActiveScores(db')[id] == ActiveScores(db)[id]
  }

  lemma OnlyClosesTransitive(a: Db, b: Db, c: Db)
    requires OnlyCloses(a, b) && OnlyCloses(b, c)
    ensures OnlyCloses(a, c)
  {
    forall id ensures ClosedOrSame(a, c, id) {
      assert ClosedOrSame(a, b, id) && ClosedOrSame(b, c, id);
    }
    forall id ensures Get(c, SessionKey(id)).Some? == Get(a, SessionKey(id)).Some? {
      assert Get(b, SessionKey(id)).Some? == Get(a, SessionKey(id)).Some?;
      assert Get(c, SessionKey(id)).Some? == Get(b, SessionKey(id)).Some?;
    }
    forall k: Key | !k.SessionKey? && k != ActiveKey ensures Get(c, k) == Get(a, k) {
      assert Get(c, k) == Get(b, k);
    }
    forall id ensures KeepsScore(a, c, id) { assert KeepsScore(a, b, id) && KeepsScore(b, c, id); }
  }

  lemma StatusViewOnlyCloses(db: Db, id: string, dropped: bool, db': Db)
    requires StatusView(db, id, CLOSED, dropped, db')
    ensures OnlyCloses(db, db') && IsClosed(db', id)
    ensures forall j :: j != id ==> GetSession(db', j) == GetSession(db, j)
  {
    forall j ensures j == id || Get(db', SessionKey(j)) == Get(db, SessionKey(j)) {}
    forall j ensures ClosedOrSame(db, db', j) {}
  }

  lemma WriteClosedView(st: Store, id: string, u: UpdateCall)
    requires Inv(st) && GetSession(st.db, id).Ok?
    ensures var db' := WriteClosed(st.db, id, u);
            && Inv(st.(db := db')) && OnlyCloses(st.db, db')
            && (forall j :: j != id ==> GetSession(db', j) == GetSession(st.db, j))
            && (!u.NotWritten? ==> IsClosed(db', id))
            && (u.NotWritten? ==> db' == st.db)
            && ActiveScores(db') == if u.Written? then ActiveScores(st.db) - {id} else ActiveScores(st.db)
  {
    var db := st.db;
    assert Indexed(st, id) && Sound(db, ActiveKey);
    if u.Written? {
      CloseHasView(db, id);
      StatusViewKeeps(st, id, CLOSED, true, Update(db, id, CLOSED));
      StatusViewOnlyCloses(db, id, true, Update(db, id, CLOSED));
    } else if !u.NotWritten? {
      SetStatusHasView(db, id, CLOSED);
      StatusViewKeeps(st, id, CLOSED, false, SetStatus(db, id, CLOSED));
      StatusViewOnlyCloses(db, id, false, SetStatus(db, id, CLOSED));
    }
  }

  lemma FewerIngressesTracked(w: World, gone: set<string>)
    requires Tracking(w)
    ensures Tracking(w.(ingresses := w.ingresses - gone))
  {
    var w' := w.(ingresses := w.ingresses - gone);
    forall ing ensures Tracked(w', ing) { assert Tracked(w, ing); }
    forall id, ing ensures OwnMembers(w', id, ing) { assert OwnMembers(w, id, ing); }
  }

  lemma CloseOneKeeps(w: World, id: string, f: CloseFaults)
    requires WInv(w) && GetSession(w.store.db, id).Ok?
    ensures var w' := CloseOne(w, id, f);
            && WInv(w') && OnlyCloses(w.store.db, w'.store.db) && SameBooks(w.store, w'.store)
            && w'.owners == w.owners && w'.leaked == w.leaked
            && w'.ingresses == DeleteRoom(w, id, f).ingresses
  {
    var w1 := DeleteRoom(w, id, f);
    FewerIngressesTracked(w, MembersAt(w.store.db, IngressKey(id)) - f.kept);
    assert w.ingresses - {} == w.ingresses;
    WriteClosedView(w.store, id, f.update);
    TrackingKept(w1, w1.store.(db := WriteClosed(w1.store.db, id, f.update)));
  }

  lemma {:induction false} CloseAllKeeps(w: World, todo: seq<(string, CloseFaults)>)
    requires WInv(w) && forall i :: 0 <= i < |todo| ==> GetSession(w.store.db, todo[i].0).Ok?
    ensures var w' := CloseAll(w, todo);
            && WInv(w') && OnlyCloses(w.store.db, w'.store.db) && SameBooks(w.store, w'.store)
            && w'.owners == w.owners && w'.leaked == w.leaked
    decreases |todo|
  {
    if todo != [] {
      var w1 := CloseOne(w, todo[0].0, todo[0].1);
      CloseOneKeeps(w, todo[0].0, todo[0].1);
      forall i | 0 <= i < |todo| ensures GetSession(w1.store.db, todo[i].0).Ok? {
        assert ClosedOrSame(w.store.db, w1.store.db, todo[i].0);
      }
      CloseAllKeeps(w1, todo[1..]);
      OnlyClosesTransitive(w.store.db, w1.store.db, CloseAll(w1, todo[1..]).store.db);
    }
  }

  // ---- every request ----

  lemma PruneActiveView(st: Store, nowSec: int, spared: set<string>)
    requires Inv(st)
    ensures Inv(st.(db := PruneActive(st.db, nowSec, spared)))
    ensures OnlyCloses(st.db, PruneActive(st.db, nowSec, spared))
    ensures forall id :: GetSession(PruneActive(st.db, nowSec, spared), id) == GetSession(st.db, id)
  {
    ListExpiredKeeps(st, nowSec, spared);
    PrunedScores(st.db, nowSec, spared);
  }

  ghost predicate Fates(st: Store, db': Db) { forall id :: Fate(st, db', id) }

  lemma ClosingIsAFate(st: Store, db': Db)
    requires OnlyCloses(st.db, db')
    ensures Fates(st, db')
  {
    forall id ensures Fate(st, db', id) { assert ClosedOrSame(st.db, db', id); }
  }

  lemma SweepKeeps(w: World, r: Request)
    requires WInv(w) && r.Sweep? && Possible(w, r)
    ensures WInv(Handle(w, r).0) && Fates(w.store, Handle(w, r).0.store.db)
    ensures OnlyCloses(w.store.db, Handle(w, r).0.store.db) && SameBooks(w.store, Handle(w, r).0.store)
    ensures Handle(w, r).0.owners == w.owners
  {
    PruneActiveView(w.store, r.nowSec, r.listing.spared);
    var w1 := WithDb(w, PruneActive(w.store.db, r.nowSec, r.listing.spared));
    TrackingKept(w, w1.store);
    CloseAllKeeps(w1, r.todo);
    OnlyClosesTransitive(w.store.db, w1.store.db, Handle(w, r).0.store.db);
    ClosingIsAFate(w.store, Handle(w, r).0.store.db);
  }

  lemma CreateLeavesRecords(w: World, s: Session, scored: nat, stage: nat, db': Db)
    requires WInv(w) && s.id !in w.store.used && CreateView(w.store.db, s, scored, w.store.ttl, stage, db')
    ensures forall id :: id != s.id ==> Get(db', SessionKey(id)) == Get(w.store.db, SessionKey(id))
    ensures forall id :: Get(db', IngressKey(id)) == Get(w.store.db, IngressKey(id))
    ensures forall id :: id in w.store.used ==>
              KeepsScore(w.store.db, db', id) && (id in ActiveScores(w.store.db) ==> id in ActiveScores(db'))
  {
  }

  /** Nothing but a new session: the old ones keep their records, stages, scores and
      ingresses. */
  ghost predicate OnlyAdds(w: World, w': World) {
    && w'.ingresses == w.ingresses && w'.owners == w.owners && w'.store.db.now == w.store.db.now
    && (forall id :: id in w.store.used ==> Get(w'.store.db, SessionKey(id)) == Get(w.store.db, SessionKey(id)))
    && (forall id :: id in w.store.used ==> StageOf(w'.store, id) == StageOf(w.store, id))
    && (forall id :: id in w.store.used ==> KeepsScore(w.store.db, w'.store.db, id))
    && (forall id :: id in w.store.used && id in ActiveScores(w.store.db) ==> id in ActiveScores(w'.store.db))
  }

  lemma CreateTracked(w: World, s: Session, scored: nat, stage: nat, db': Db)
    requires WInv(w) && s.id !in w.store.used && CreateView(w.store.db, s, scored, w.store.ttl, stage, db')
    ensures var w' := w.(store := Booked(w.store, s, stage, db'));
            Tracking(w') && OnlyAdds(w, w')
  {
    CreateLeavesRecords(w, s, scored, stage, db');
    TrackingKept(w, Booked(w.store, s, stage, db'));
  }

  /** The books after the store part of CreateSession, complete or not. */
  function AfterStore(w: World, r: Request): World
    requires r.CreateSession? && r.cameras > 0
  {
    var s := NewSession(r.user, r.cameras, r.id, r.code, r.createdAt);
    w.(store := match r.stored
                case Done => Step(w.store, OpCreate(s, r.scored))
                case Failed(n) => Step(w.store, OpCutCreate(s, r.scored, n)))
  }

  lemma AfterStoreKeeps(w: World, r: Request)
    requires WInv(w) && r.CreateSession? && Possible(w, r) && r.cameras > 0
    ensures var w1 := AfterStore(w, r);
            WInv(w1) && OnlyAdds(w, w1) && w1.store.used == w.store.used + {r.id}
  {
    var s := NewSession(r.user, r.cameras, r.id, r.code, r.createdAt);
    match r.stored
    case Done =>
      CreateKeeps(w.store, s, r.scored);
      CreateHasView(w.store, s, r.scored);
      CreateTracked(w, s, r.scored, WHOLE, Create(w.store.db, s, r.scored, w.store.ttl));
    case Failed(n) =>
      CutCreateKeeps(w.store, s, r.scored, n);
      var m := CutLength(w.store.db, s, r.scored, w.store.ttl, n);
      CutCreateHasView(w.store, s, r.scored, m);
      CreateTracked(w, s, r.scored, Stage(s, m), CutCreate(w.store.db, s, r.scored, w.store.ttl, m));
  }

  /** CreateSession adds one session, whole or as far as its commands got, and touches no
      other, also when granting access fails. */
  lemma CreateRequestView(w: World, r: Request)
    requires WInv(w) && r.CreateSession? && Possible(w, r)
    ensures WInv(Handle(w, r).0) && OnlyAdds(w, Handle(w, r).0)
    ensures w.store.used <= Handle(w, r).0.store.used <= w.store.used + {r.id}
    ensures r.user != "" && r.cameras > 0 ==>
              forall k: Key :: !k.AccessKey? ==> Get(Handle(w, r).0.store.db, k) == Get(AfterStore(w, r).store.db, k)
  {
    if r.user != "" && r.cameras > 0 {
      var w1, w' := AfterStore(w, r), Handle(w, r).0;
      AfterStoreKeeps(w, r);
      if r.stored.Done? {
        GrantSendKeeps(w1, r.id, r.user, "director", r.granted);
      } else {
        assert w' == w1;
      }
    }
  }

  /** Only access hashes and ingress sets changed. */
  ghost predicate SideOnly(db: Db, db': Db) {
    db'.now == db.now && forall k: Key :: !k.AccessKey? && !k.IngressKey? ==> Get(db', k) == Get(db, k)
  }

  predicate SameBooks(st: Store, st': Store) { 
    st'.used == st.used && st'.cut == st.cut && st'.ttl == st.ttl && st'.lag == st.lag
  }

  lemma CameraJoin(w: World, s: Session, user: string, role: string, ing: string, f: JoinFaults)
    requires WInv(w) && Carries(w.store, s, s.roomCode) && ing !in w.owners
    ensures var (w', reply) := JoinAsCamera(w, s, user, role, ing, f);
            && WInv(w') && SideOnly(w.store.db, w'.store.db) && SameBooks(w.store, w'.store)
            && (w'.owners == w.owners || w'.owners == w.owners[ing := s.id])
            && (forall i :: i in w.ingresses ==> i in w'.ingresses && w'.ingresses[i] == w.ingresses[i])
  {
    assert Known(w.store, s.id) && Tracked(w, ing);
    GrantSendKeeps(w, s.id, user, role, f.grant);
    var w1 := WithDb(w, Send(w.store.db, GrantPipeline(s.id, user, role, w.store.ttl), f.grant));
    if f.created && f.grant.Done? {
      RecordSendKeeps(w1, s.id, ing, f.recorded);
    } else if f.created {
      RollbackTracked(w1, s.id, ing);
    }
  }

  /** A join leaves every record and index alone, creates an ingress only for the
      open session it resolved, and admits only to that one. */
  lemma JoinEffect(w: World, r: Request)
    requires WInv(w) && r.JoinSession? && Possible(w, r)
    ensures var (w', reply) := Handle(w, r);
            && WInv(w') && SideOnly(w.store.db, w'.store.db) && SameBooks(w.store, w'.store)
            && (w'.owners == w.owners
                || exists id :: IsOpen(w.store.db, id) && w'.owners == w.owners[r.ingress := id])
            && (forall i :: i in w.ingresses ==> i in w'.ingresses && w'.ingresses[i] == w.ingresses[i])
            && (forall id :: Admits(reply, id) ==> IsOpen(w.store.db, id))
  {
    if r.user != "" && r.role != "" && r.code != "" && r.joinFaults.looked && GetByCode(w.store.db, r.code).Ok? {
      var s := GetByCode(w.store.db, r.code).value;
      CodeLookupIsFilter(w.store, r.code, s);
      if s.status != CLOSED {
        assert IsOpen(w.store.db, s.id);
        if r.role == "camera" {
          CameraJoin(w, s, r.user, r.role, r.ingress, r.joinFaults);
        } else if r.role == "director" {
          GrantSendKeeps(w, s.id, r.user, r.role, r.joinFaults.grant);
        }
      }
    }
  }

  predicate Admits(reply: Reply, id: string) {
    (reply.CameraAdmitted? || reply.DirectorAdmitted?) && reply.session == id
  }

  lemma RollbackTracked(w: World, id: string, ing: string)
    requires WInv(w) && ing !in w.owners && id in w.store.used
    ensures WInv(w.(owners := w.owners[ing := id]))
    ensures WInv(w.(ingresses := w.ingresses[ing := id], owners := w.owners[ing := id], leaked := w.leaked + {ing}))
  {
    var a := w.(owners := w.owners[ing := id]);
    var b := w.(ingresses := w.ingresses[ing := id], owners := w.owners[ing := id], leaked := w.leaked + {ing});
    forall i ensures Tracked(a, i) && Tracked(b, i) { assert Tracked(w, i); }
    forall j, i ensures OwnMembers(a, j, i) && OwnMembers(b, j, i) { assert OwnMembers(w, j, i); }
  }

  lemma CloseRequestKeeps(w: World, r: Request)
    requires WInv(w) && r.CloseSession?
    ensures WInv(Handle(w, r).0) && Fates(w.store, Handle(w, r).0.store.db)
    ensures OnlyCloses(w.store.db, Handle(w, r).0.store.db) && SameBooks(w.store, Handle(w, r).0.store)
  {
    if r.code != "" && r.user != "" && r.looked && GetByCode(w.store.db, r.code).Ok?
       && GetByCode(w.store.db, r.code).value.createdBy == r.user {
      var s := GetByCode(w.store.db, r.code).value;
      CodeLookupIsFilter(w.store, r.code, s);
      CloseOneKeeps(w, s.id, r.faults);
      assert Handle(w, r).0 == CloseOne(w, s.id, r.faults);
    } else {
      assert Handle(w, r).0 == w;
    }
    ClosingIsAFate(w.store, Handle(w, r).0.store.db);
  }

  /** A CloseSession closes at most the session its code leads to, if the caller is its
      creator. */
  lemma CloseRequestOnly(w: World, r: Request, id: string)
    requires WInv(w) && r.CloseSession? && IsOpen(w.store.db, id)
    ensures GetSession(Handle(w, r).0.store.db, id) != GetSession(w.store.db, id) ==>
              Closer(w, r, id) && StageOf(w.store, id) >= CODE_WRITTEN
  {
    if r.code != "" && GetByCode(w.store.db, r.code).Ok? {
      var s := GetByCode(w.store.db, r.code).value;
      CodeLookupIsFilter(w.store, r.code, s);
      WriteClosedView(w.store, s.id, r.faults.update);
    }
  }

  lemma TickRequestKeeps(w: World, t: nat)
    requires WInv(w)
    ensures WInv(Handle(w, Tick(t)).0) && Fates(w.store, Handle(w, Tick(t)).0.store.db)
  {
    var db, db' := w.store.db, Advance(w.store.db, t);
    TickKeeps(w.store, t);
    var w' := WithDb(w, db');
    forall k ensures Get(db', k) == Get(db, k) || (Get(db', k).None? && !Alive(Get(db, k).value, t)) {}
    forall ing ensures Tracked(w', ing) {
      assert Tracked(w, ing);
      if ing in w.ingresses {
        assert Sound(db, SessionKey(w.ingresses[ing]));
      }
    }
    forall id, ing ensures OwnMembers(w', id, ing) { assert OwnMembers(w, id, ing); }
  }

  lemma ListRequestKeeps(w: World, r: Request)
    requires WInv(w) && r.GetMySessions?
    ensures WInv(Handle(w, r).0) && Fates(w.store, Handle(w, r).0.store.db)
  {
    var db' := PruneUser(w.store.db, r.user, r.listing.spared);
    ListUserKeeps(w.store, r.user, r.listing.spared);
    PrunedMembers(w.store.db, r.user, r.listing.spared);
    TrackingKept(w, w.store.(db := db'));
  }

  lemma HandleKeeps(w: World, r: Request)
    requires WInv(w) && Possible(w, r)
    ensures WInv(Handle(w, r).0) && Fates(w.store, Handle(w, r).0.store.db)
    ensures w.store.used <= Handle(w, r).0.store.used
    ensures forall id :: id in w.store.used ==> StageOf(Handle(w, r).0.store, id) == StageOf(w.store, id)
  {
    match r
    case CreateSession(_, _, _, _, _, _, _, _) => CreateRequestView(w, r);
    case JoinSession(_, _, _, _, _) => JoinEffect(w, r);
    case CloseSession(_, _, _, _) => CloseRequestKeeps(w, r);
    case GetMySessions(_, _) => ListRequestKeeps(w, r);
    case Sweep(_, _, _) => SweepKeeps(w, r);
    case Tick(t) => TickRequestKeeps(w, t);
  }

  // ---- runs ----

  function Serve(w: World, rs: seq<Request>): World
    decreases |rs|
  {
    if rs == [] then w else Serve(Handle(w, rs[0]).0, rs[1..])
  }

  ghost predicate LegalRun(w: World, rs: seq<Request>)
    decreases |rs|
  {
    rs == [] || (Possible(w, rs[0]) && LegalRun(Handle(w, rs[0]).0, rs[1..]))
  }

  function EmptyWorld(now: nat, ttl: nat, lag: nat): World { World(Empty(now, ttl, lag), map[], map[], {}) }

  lemma {:induction false} ServeKeeps(w: World, rs: seq<Request>)
    requires WInv(w) && LegalRun(w, rs)
    ensures WInv(Serve(w, rs)) && w.store.used <= Serve(w, rs).store.used
    ensures forall id :: id in w.store.used ==> StageOf(Serve(w, rs).store, id) == StageOf(w.store, id)
    decreases |rs|
  {
    if rs != [] {
      HandleKeeps(w, rs[0]);
      ServeKeeps(Handle(w, rs[0]).0, rs[1..]);
    }
  }

  /** A session that was created and is not open: closed, expired or deleted. */
  predicate Retired(w: World, id: string) { id in w.store.used && !IsOpen(w.store.db, id) }

  predicate IngressOf(w: World, ing: string, id: string) { ing in w.owners && w.owners[ing] == id }

  /** A request neither reopens a retired session nor admits anyone to it nor makes
      an ingress for it. */
  lemma RetiredStep(w: World, r: Request, id: string)
    requires WInv(w) && Possible(w, r) && Retired(w, id)
    ensures Retired(Handle(w, r).0, id) && !Admits(Handle(w, r).1, id)
    ensures forall ing :: IngressOf(Handle(w, r).0, ing, id) ==> IngressOf(w, ing, id)
  {
    HandleKeeps(w, r);
    assert Fate(w.store, Handle(w, r).0.store.db, id);
    if r.JoinSession? { JoinEffect(w, r); }
    if r.Sweep? { SweepKeeps(w, r); }
  }

  /** Over every run: once closed, or gone, a session is never open again, and no
      later request is answered with a token or an ingress for it. */
  lemma {:induction false} ClosedForever(w: World, rs: seq<Request>, id: string)
    requires WInv(w) && LegalRun(w, rs) && Retired(w, id)
    ensures Retired(Serve(w, rs), id)
    ensures forall i :: 0 <= i < |rs| ==> !Admits(Handle(Serve(w, rs[..i]), rs[i]).1, id)
    ensures forall ing :: IngressOf(Serve(w, rs), ing, id) ==> IngressOf(w, ing, id)
    decreases |rs|
  {
    if rs != [] {
      var w1 := Handle(w, rs[0]).0;
      HandleKeeps(w, rs[0]);
      RetiredStep(w, rs[0], id);
      ClosedForever(w1, rs[1..], id);
      forall i | 0 <= i < |rs| ensures !Admits(Handle(Serve(w, rs[..i]), rs[i]).1, id) {
        if i == 0 {
          assert rs[..0] == [];
        } else {
          ServeShift(w, rs, i - 1);
          assert rs[i] == rs[1..][i - 1];
        }
      }
    }
  }

  /** The only requests that close an open session: CloseSession with its code by its
      creator, and a sweep for which it is due. */
  predicate Closer(w: World, r: Request, id: string) {
    match r
    case CloseSession(code, user, _, _) =>
      IsOpen(w.store.db, id) && GetSession(w.store.db, id).value.roomCode == code
      && GetSession(w.store.db, id).value.createdBy == user
    case Sweep(nowSec, _, _) => id in DueIds(w.store.db, nowSec)
    case _ => false
  }

  lemma {:induction false} CloseAllOnlyListed(w: World, todo: seq<(string, CloseFaults)>, id: string)
    requires WInv(w) && forall i :: 0 <= i < |todo| ==> GetSession(w.store.db, todo[i].0).Ok?
    requires forall i :: 0 <= i < |todo| ==> todo[i].0 != id
    ensures GetSession(CloseAll(w, todo).store.db, id) == GetSession(w.store.db, id)
    decreases |todo|
  {
    if todo != [] {
      var w1 := CloseOne(w, todo[0].0, todo[0].1);
      CloseOneKeeps(w, todo[0].0, todo[0].1);
      WriteClosedView(w.store, todo[0].0, todo[0].1.update);
      forall i | 0 <= i < |todo| ensures GetSession(w1.store.db, todo[i].0).Ok? {
        assert ClosedOrSame(w.store.db, w1.store.db, todo[i].0);
      }
      CloseAllOnlyListed(w1, todo[1..], id);
    }
  }

  lemma SweepOnly(w: World, r: Request, id: string)
    requires WInv(w) && r.Sweep? && Possible(w, r) && id !in DueIds(w.store.db, r.nowSec)
    ensures GetSession(Handle(w, r).0.store.db, id) == GetSession(w.store.db, id)
  {
    var db1 := PruneActive(w.store.db, r.nowSec, r.listing.spared);
    PruneActiveView(w.store, r.nowSec, r.listing.spared);
    TrackingKept(w, w.store.(db := db1));
    CloseAllOnlyListed(WithDb(w, db1), r.todo, id);
  }

  lemma ClosedStep(w: World, r: Request, id: string)
    requires WInv(w) && Possible(w, r) && IsOpen(w.store.db, id) && IsClosed(Handle(w, r).0.store.db, id)
    ensures Closer(w, r, id)
  {
    assert Known(w.store, id);
    match r
    case CreateSession(_, _, _, _, _, _, _, _) => CreateRequestView(w, r);
    case JoinSession(_, _, _, _, _) => JoinEffect(w, r);
    case CloseSession(_, _, _, _) => CloseRequestOnly(w, r, id);
    case Sweep(nowSec, _, _) => if id !in DueIds(w.store.db, nowSec) { SweepOnly(w, r, id); }
    case _ =>
  }

  lemma ServeShift(w: World, rs: seq<Request>, i: nat)
    requires i < |rs|
    ensures Serve(w, rs[..i + 1]) == Serve(Handle(w, rs[0]).0, rs[1..][..i])
  {
    assert rs[..i + 1][0] == rs[0] && rs[..i + 1][1..] == rs[1..][..i];
  }

  /** Over every run: if an open session is closed at the end, some request of the
      run found it open and was its creator's CloseSession or a sweep for which it
      was due. */
  lemma {:induction false} ClosedOnlyByOwnerOrDueSweep(w: World, rs: seq<Request>, id: string)
    requires WInv(w) && LegalRun(w, rs) && IsOpen(w.store.db, id) && IsClosed(Serve(w, rs).store.db, id)
    ensures exists i :: 0 <= i < |rs| && Closer(Serve(w, rs[..i]), rs[i], id) && IsOpen(Serve(w, rs[..i]).store.db, id)
    decreases |rs|
  {
    if rs == [] {
      assert false;
    } else {
      var w1 := Handle(w, rs[0]).0;
      HandleKeeps(w, rs[0]);
      assert Known(w.store, id) && Fate(w.store, w1.store.db, id);
      if IsOpen(w1.store.db, id) {
        ClosedOnlyByOwnerOrDueSweep(w1, rs[1..], id);
        var i :| 0 <= i < |rs| - 1 && Closer(Serve(w1, rs[1..][..i]), rs[1..][i], id)
                 && IsOpen(Serve(w1, rs[1..][..i]).store.db, id);
        ServeShift(w, rs, i);
      } else if IsClosed(w1.store.db, id) {
        ClosedStep(w, rs[0], id);
        assert rs[..0] == [];
      } else {
        GoneStaysGone(w1, rs[1..], id);
        assert false;
      }
    }
  }

  /** A session whose hash has expired never has a record again. */
  lemma {:induction false} GoneStaysGone(w: World, rs: seq<Request>, id: string)
    requires WInv(w) && LegalRun(w, rs) && id in w.store.used && Get(w.store.db, SessionKey(id)).None?
    ensures Get(Serve(w, rs).store.db, SessionKey(id)).None?
    decreases |rs|
  {
    if rs != [] {
      var w1 := Handle(w, rs[0]).0;
      HandleKeeps(w, rs[0]);
      assert Fate(w.store, w1.store.db, id) && Indexed(w1.store, id);
      GoneStaysGone(w1, rs[1..], id);
    }
  }

  // ---- a create that stops after its first command ----

  /** An open session whose hash has no expiry and whose code was never written. */
  predicate Stuck(w: World, id: string) {
    && id in w.store.used && StageOf(w.store, id) < CODE_WRITTEN
    && IsOpen(w.store.db, id) && Get(w.store.db, SessionKey(id)).value.expiry.Never?
  }

  lemma FirstCommandAloneIsStuck(w: World, r: Request)
    requires WInv(w) && r.CreateSession? && Possible(w, r) && r.user != "" && r.cameras > 0 && r.stored == Failed(1)
    ensures Stuck(Handle(w, r).0, r.id)
  {
    var s := NewSession(r.user, r.cameras, r.id, r.code, r.createdAt);
    CreatePipelineAt(s, r.scored, w.store.ttl);
    CutCreateHasView(w.store, s, r.scored, 1);
    CreateSessions(w.store, s, r.scored, 1, CutCreate(w.store.db, s, r.scored, w.store.ttl, 1), s.id);
    assert "active"[0] != CLOSED[0];
  }

  lemma StuckStep(w: World, r: Request, id: string)
    requires WInv(w) && Possible(w, r) && Stuck(w, id)
    ensures Stuck(Handle(w, r).0, id)
  {
    match r
    case CreateSession(_, _, _, _, _, _, _, _) => CreateRequestView(w, r);
    case JoinSession(_, _, _, _, _) => JoinEffect(w, r);
    case CloseSession(_, _, _, _) =>
      CloseRequestKeeps(w, r);
      CloseRequestOnly(w, r, id);
    case Sweep(_, _, _) =>
      assert ScoresOwn(w.store, id);
      SweepOnly(w, r, id);
      SweepKeeps(w, r);
    case GetMySessions(user, listing) => PrunedMembers(w.store.db, user, listing.spared);
    case Tick(t) =>
      assert Get(Advance(w.store.db, t), SessionKey(id)) == Get(w.store.db, SessionKey(id));
  }

  /** Over every run: such a session stays open, and no code leads to it; no request, no
      sweep and no passage of time removes it. */
  lemma {:induction false} StuckForever(w: World, rs: seq<Request>, id: string)
    requires WInv(w) && LegalRun(w, rs) && Stuck(w, id)
    ensures Stuck(Serve(w, rs), id)
    ensures forall code :: code != "" ==> GetByCode(Serve(w, rs).store.db, code) != GetSession(w.store.db, id)
    decreases |rs|
  {
    if rs != [] {
      HandleKeeps(w, rs[0]);
      StuckStep(w, rs[0], id);
      StuckForever(Handle(w, rs[0]).0, rs[1..], id);
      assert Fate(w.store, Handle(w, rs[0]).0.store.db, id);
    } else {
      assert Indexed(w.store, id);
      forall code | code != "" ensures GetByCode(w.store.db, code) != GetSession(w.store.db, id) {
        CodeLookupIsFilter(w.store, code, GetSession(w.store.db, id).value);
      }
    }
  }

  // ---- what a clean create and join achieve ----

  predicate ExpiresAt(db: Db, k: Key, t: nat) { Get(db, k).Some? && Get(db, k).value.expiry == At(t) }

  /** The session the request asks for: active, with its id, its code, the caller as its
      creator and the number of cameras. */
  predicate AsRequested(s: Session, r: Request)
    requires r.CreateSession?
  {
    && s.id == r.id && s.roomCode == r.code && s.createdBy == r.user && s.status == "active"
    && s.createdAt == r.createdAt && Number(s.maxCameras) == Some(r.cameras)
  }

  /** It is found under its id and its code, is in its creator's set and in the active set
      with the second of its end as computed at `scored`; hash, code and set end at `end`. */
  predicate FoundEverywhere(db: Db, s: Session, scoredEnd: nat, end: nat) {
    && Stored(db, s) && GetByCode(db, s.roomCode) == Ok(s)
    && s.id in MembersAt(db, UserKey(s.createdBy)) && s.id in ActiveScores(db)
    && 1000 * ActiveScores(db)[s.id] <= scoredEnd < 1000 * ActiveScores(db)[s.id] + 1000
    && ExpiresAt(db, SessionKey(s.id), end) && ExpiresAt(db, RoomKey(s.roomCode), end)
    && ExpiresAt(db, UserKey(s.createdBy), end)
  }

  lemma ViewIsFound(db: Db, s: Session, scored: nat, ttl: nat, db1: Db, db': Db)
    requires CreateView(db, s, scored, ttl, WHOLE, db1) && s.roomCode != "" && s.createdAt != "" && s.maxCameras != ""
    requires forall k: Key :: !k.AccessKey? ==> Get(db', k) == Get(db1, k)
    ensures FoundEverywhere(db', s, scored + 1000 * ttl, db.now + 1000 * ttl)
  {
    DecodeEncode(s);
    assert Get(db', SessionKey(s.id)) == Some(Entry(Record(Encode(s)), At(db.now + 1000 * ttl)));
    assert Get(db', RoomKey(s.roomCode)) == Some(Entry(Text(s.id), At(db.now + 1000 * ttl)));
  }

  /** A well-formed CreateSession that is stored: its code resolves to the session asked
      for, which every index holds for a lifetime. It is answered with the code if and
      only if access is granted, and then the creator is its director for as long. */
  lemma CreateThenLookUp(w: World, r: Request)
    requires WInv(w) && r.CreateSession? && Possible(w, r) && r.user != "" && r.cameras > 0 && r.stored.Done?
    ensures var (w', reply) := Handle(w, r);
            var db', end := w'.store.db, w.store.db.now + 1000 * w.store.ttl;
            && GetByCode(db', r.code).Ok? && AsRequested(GetByCode(db', r.code).value, r) && IsOpen(db', r.id)
            && FoundEverywhere(db', GetByCode(db', r.code).value, r.scored + 1000 * w.store.ttl, end)
            && reply == (if r.granted.Done? then SessionCreated(r.code) else Internal)
            && (r.granted.Done? ==>
                  RoleOf(db', r.id, r.user) == Some("director") && ExpiresAt(db', AccessKey(r.id), end))
  {
    DecimalReadsBack(r.cameras);
    CreateIsFound(w, r);
    if r.granted.Done? { CreateMakesDirector(w, r); }
    assert "active"[0] != CLOSED[0];
  }

  lemma CreateIsFound(w: World, r: Request)
    requires WInv(w) && r.CreateSession? && Possible(w, r) && r.user != "" && r.cameras > 0 && r.stored.Done?
    ensures FoundEverywhere(Handle(w, r).0.store.db, NewSession(r.user, r.cameras, r.id, r.code, r.createdAt),
                            r.scored + 1000 * w.store.ttl, w.store.db.now + 1000 * w.store.ttl)
  {
    var s := NewSession(r.user, r.cameras, r.id, r.code, r.createdAt);
    CreateRequestView(w, r);
    DecimalReadsBack(r.cameras);
    CreateHasView(w.store, s, r.scored);
    ViewIsFound(w.store.db, s, r.scored, w.store.ttl, AfterStore(w, r).store.db, Handle(w, r).0.store.db);
  }

  lemma CreateMakesDirector(w: World, r: Request)
    requires WInv(w) && r.CreateSession? && Possible(w, r) && r.user != "" && r.cameras > 0 && r.stored.Done?
    requires r.granted.Done?
    ensures RoleOf(Handle(w, r).0.store.db, r.id, r.user) == Some("director")
    ensures ExpiresAt(Handle(w, r).0.store.db, AccessKey(r.id), w.store.db.now + 1000 * w.store.ttl)
  {
    var w1 := AfterStore(w, r);
    AfterStoreKeeps(w, r);
    GrantGivesRole(w1.store, r.id, r.user, "director");
    assert Handle(w, r).0.store.db == Run(w1.store.db, GrantPipeline(r.id, r.user, "director", w1.store.ttl));
  }

  /** CreateSession answers: invalid exactly without a user or a camera, and then nothing
      happens; with the code exactly when both of its writes succeed; else internal. */
  lemma CreateAnswers(w: World, r: Request)
    requires r.CreateSession?
    ensures var (w', reply) := Handle(w, r);
            && (reply == InvalidArgument <==> r.user == "" || r.cameras <= 0)
            && (reply == InvalidArgument ==> w' == w)
            && (reply.SessionCreated? <==> r.user != "" && r.cameras > 0 && r.stored == Done && r.granted == Done)
            && (reply.SessionCreated? ==> reply.code == r.code)
            && (reply.InvalidArgument? || reply.SessionCreated? || reply.Internal?)
  {
  }

  function RoleOf(db: Db, id: string, user: string): Option<string> {
    match Get(db, AccessKey(id))
    case Some(Entry(Roles(roles), _)) => if user in roles then Some(roles[user]) else None
    case _ => None
  }

  lemma GrantGivesRole(st: Store, id: string, user: string, role: string)
    requires Inv(st)
    ensures var db' := Run(st.db, GrantPipeline(id, user, role, st.ttl));
            && RoleOf(db', id, user) == Some(role) && ExpiresAt(db', AccessKey(id), st.db.now + 1000 * st.ttl)
            && (forall u :: u != user ==> RoleOf(db', id, u) == RoleOf(st.db, id, u))
            && (forall k :: k != AccessKey(id) ==> Get(db', k) == Get(st.db, k))
            && Grant(st.db, id, user, role, st.ttl) == if Get(st.db, SessionKey(id)).Some? then db' else st.db
  {
    RunSameKey(st.db, AccessKey(id), HSetRole(user, role), Expire(1000 * st.ttl));
    assert Sound(st.db, AccessKey(id));
  }

  /** Revoking takes the user's role and nobody else's. */
  lemma RevokeTakesRole(st: Store, id: string, user: string)
    requires Inv(st)
    ensures var db' := Step(st, OpRevoke(id, user)).db;
            && RoleOf(db', id, user) == None
            && (forall u :: u != user ==> RoleOf(db', id, u) == RoleOf(st.db, id, u))
            && (forall k :: k != AccessKey(id) ==> Get(db', k) == Get(st.db, k))
  {
    assert Sound(st.db, AccessKey(id));
    if Get(st.db, AccessKey(id)).Some? {
      var roles := st.db.entries[AccessKey(id)].value.roles;
      assert forall u :: u != user && u in roles ==> u in roles - {user};
    }
  }

  predicate JoinWorks(r: Request)
    requires r.JoinSession?
  {
    || (r.role == "camera" && r.joinFaults.created && r.joinFaults.grant.Done?)
    || (r.role == "director" && r.joinFaults.grant.Done? && r.joinFaults.signed)
  }

  /** `s` is stored under the code, and its create got as far as writing it: always so
      unless the create was cut short. */
  predicate Carries(st: Store, s: Session, code: string) {
    Stored(st.db, s) && s.roomCode == code && StageOf(st, s.id) >= CODE_WRITTEN
  }

  lemma LookupFinds(st: Store, code: string)
    requires Inv(st) && code != ""
    ensures forall s :: GetByCode(st.db, code) == Ok(s) <==> Carries(st, s, code)
    ensures GetByCode(st.db, code).Ok? ==> Carries(st, GetByCode(st.db, code).value, code)
  {
    forall s ensures GetByCode(st.db, code) == Ok(s) <==> Carries(st, s, code) {
      CodeLookupIsFilter(st, code, s);
    }
  }

  /** A join with a user, a role and a code answers: not found exactly when the lookup
      failed or no stored session carries the code; failed precondition exactly when the
      one found is closed; invalid exactly when it is open and the role is neither camera
      nor director; admitted to it exactly when it is open and the calls the role needs
      succeed. Without one of the three it is invalid; what is refused changes nothing. */
  lemma JoinAnswers(w: World, r: Request)
    requires WInv(w) && r.JoinSession?
    ensures var (w', reply) := Handle(w, r);
            var looked, known := r.joinFaults.looked, r.role == "camera" || r.role == "director";
            && (r.user == "" || r.role == "" || r.code == "" ==> reply == InvalidArgument)
            && (r.user != "" && r.role != "" && r.code != "" ==>
                  && (reply == NotFound <==> !looked || forall s :: !Carries(w.store, s, r.code))
                  && (forall s :: Carries(w.store, s, r.code) ==>
                        && (reply == FailedPrecondition <==> looked && s.status == CLOSED)
                        && (reply == InvalidArgument <==> looked && s.status != CLOSED && !known)
                        && (Admits(reply, s.id) <==> looked && s.status != CLOSED && JoinWorks(r))))
            && (reply == NotFound || reply == FailedPrecondition || reply == InvalidArgument ==> w' == w)
  {
    if r.code != "" { LookupFinds(w.store, r.code); }
  }

  /** A camera's join of an open session whose ingress or whose access cannot be made: it
      is internal; nothing is left of the ingress, unless its rollback failed too, and then
      it is counted as leaked. */
  lemma FailedCameraJoin(w: World, r: Request, s: Session)
    requires WInv(w) && r.JoinSession? && r.role == "camera" && r.user != "" && r.code != "" && Possible(w, r)
    requires r.joinFaults.looked && GetByCode(w.store.db, r.code) == Ok(s) && s.status != CLOSED
    requires !r.joinFaults.created || r.joinFaults.grant.Failed?
    ensures var (w', reply) := Handle(w, r);
            && reply == Internal
            && (!r.joinFaults.created ==> w' == w)
            && (r.joinFaults.rolledBack ==> w'.ingresses == w.ingresses && w'.leaked == w.leaked)
            && (r.joinFaults.created && !r.joinFaults.rolledBack ==>
                  w'.ingresses == w.ingresses[r.ingress := s.id] && w'.leaked == w.leaked + {r.ingress})
            && r.ingress !in w.ingresses
            && r.ingress !in MembersAt(w'.store.db, IngressKey(s.id))
  {
    LookupFinds(w.store, r.code);
    assert Tracked(w, r.ingress) && OwnMembers(w, s.id, r.ingress);
    GrantSendKeeps(w, s.id, r.user, r.role, r.joinFaults.grant);
  }

  predicate StatusWritten(u: UpdateCall) { u.Written? || u.StillListed? }

  /** A well-formed close answers: not found exactly when the lookup failed or no stored
      session carries the code, denied exactly when somebody else created the one found,
      closed exactly when its status was written; and then the session is closed. */
  lemma CloseAnswers(w: World, r: Request)
    requires WInv(w) && r.CloseSession? && r.user != "" && r.code != ""
    ensures var (w', reply) := Handle(w, r);
            && (reply == NotFound <==> !r.looked || forall s :: !Carries(w.store, s, r.code))
            && (forall s :: Carries(w.store, s, r.code) ==>
                  && (reply == PermissionDenied <==> r.looked && s.createdBy != r.user)
                  && (reply == SessionClosed <==> r.looked && s.createdBy == r.user && StatusWritten(r.faults.update))
                  && (reply == SessionClosed ==> IsClosed(w'.store.db, s.id)))
            && (reply == NotFound || reply == PermissionDenied ==> w' == w)
  {
    LookupFinds(w.store, r.code);
    if GetByCode(w.store.db, r.code).Ok? {
      WriteClosedView(w.store, GetByCode(w.store.db, r.code).value.id, r.faults.update);
    }
  }

  /** The creator, and nobody else, can close a session just created. */
  lemma CreatorCanClose(w: World, r: Request, user: string)
    requires WInv(w) && r.CreateSession? && Possible(w, r) && r.user != "" && r.cameras > 0 && r.stored.Done?
    requires user != ""
    ensures var reply := Handle(Handle(w, r).0, CloseSession(r.code, user, true, NO_FAULTS)).1;
            reply == if user == r.user then SessionClosed else PermissionDenied
  {
    CreateThenLookUp(w, r);
    CreateRequestView(w, r);
    var w1 := Handle(w, r).0;
    LookupFinds(w1.store, r.code);
    CloseAnswers(w1, CloseSession(r.code, user, true, NO_FAULTS));
  }

  const CLEAN_JOIN := JoinFaults(true, true, Done, true, Done, true)

  /** A camera that joins an open session without a failing call is admitted, has its
      role, and its new ingress is recorded. */
  lemma CleanCameraJoin(w: World, code: string, user: string, ing: string, s: Session)
    requires WInv(w) && code != "" && user != "" && ing !in w.owners
    requires GetByCode(w.store.db, code) == Ok(s) && s.status != CLOSED
    ensures var (w', reply) := Handle(w, JoinSession(code, user, "camera", ing, CLEAN_JOIN));
            && reply == CameraAdmitted(s.id, ing)
            && ing in w'.ingresses && w'.ingresses[ing] == s.id && w'.leaked == w.leaked
            && RoleOf(w'.store.db, s.id, user) == Some("camera")
            && ing in MembersAt(w'.store.db, IngressKey(s.id))
  {
    CodeLookupIsFilter(w.store, code, s);
    assert Stored(w.store.db, s);
    var db1 := Run(w.store.db, GrantPipeline(s.id, user, "camera", w.store.ttl));
    GrantSendKeeps(w, s.id, user, "camera", Done);
    GrantGivesRole(w.store, s.id, user, "camera");
    RecordAddsIngress(w.store.(db := db1), s.id, ing);
  }

  /** A director who joins an open session without a failing call is admitted and has
      the role; no ingress is made. */
  lemma CleanDirectorJoin(w: World, code: string, user: string, ing: string, s: Session)
    requires WInv(w) && code != "" && user != ""
    requires GetByCode(w.store.db, code) == Ok(s) && s.status != CLOSED
    ensures var (w', reply) := Handle(w, JoinSession(code, user, "director", ing, CLEAN_JOIN));
            && reply == DirectorAdmitted(s.id)
            && w'.ingresses == w.ingresses && w'.owners == w.owners && w'.leaked == w.leaked
            && RoleOf(w'.store.db, s.id, user) == Some("director")
            && (forall u :: u != user ==> RoleOf(w'.store.db, s.id, u) == RoleOf(w.store.db, s.id, u))
  {
    CodeLookupIsFilter(w.store, code, s);
    assert Stored(w.store.db, s);
    GrantGivesRole(w.store, s.id, user, "director");
  }

  lemma RecordAddsIngress(st: Store, id: string, ing: string)
    requires Inv(st)
    ensures var db' := Run(st.db, IngressPipeline(id, ing, st.ttl));
            && MembersAt(db', IngressKey(id)) == MembersAt(st.db, IngressKey(id)) + {ing}
            && ExpiresAt(db', IngressKey(id), st.db.now + 1000 * st.ttl)
            && (forall k :: k != IngressKey(id) ==> Get(db', k) == Get(st.db, k))
            && AddIngress(st.db, id, ing, st.ttl) == db'
  {
    RunSameKey(st.db, IngressKey(id), SAdd(ing), Expire(1000 * st.ttl));
    assert Sound(st.db, IngressKey(id));
  }
}
