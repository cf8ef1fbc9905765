/**
 What a sweep closes, what a close cleans up, and what neither ever reaches.
 */
module Sweeping {
  import opened Common
  import opened Redis
  import opened Keys
  import opened SessionStore
  import opened StoreIndex
  import opened Signaling
  import opened Histories

  // ---- ingresses ----

  /** Of the ingresses of a stored session that were not leaked, closing it leaves exactly
      those whose delete failed, or all when the ids could not be read; other sessions'
      ingresses stay. */
  lemma CloseRemovesIngresses(w: World, id: string, f: CloseFaults, ing: string)
    requires WInv(w) && GetSession(w.store.db, id).Ok? && ing in w.ingresses
    ensures var left := ing in CloseOne(w, id, f).ingresses && CloseOne(w, id, f).ingresses[ing] == w.ingresses[ing];
            && (w.ingresses[ing] == id && ing !in w.leaked ==> (left <==> !f.listed || ing in f.kept))
            && (w.ingresses[ing] != id ==> left)
  {
    assert Tracked(w, ing) && OwnMembers(w, id, ing);
  }

  /** So a CloseSession by the creator in which no call fails leaves no ingress of the
      session except the recorded leaks. */
  lemma CleanCloseLeavesOnlyLeaks(w: World, code: string, user: string, s: Session, ing: string)
    requires WInv(w) && code != "" && user != ""
    requires GetByCode(w.store.db, code) == Ok(s) && s.createdBy == user
    ensures var (w', reply) := Handle(w, CloseSession(code, user, true, NO_FAULTS));
            && reply == SessionClosed && IsClosed(w'.store.db, s.id)
            && (ing in w'.ingresses && w'.ingresses[ing] == s.id ==> ing in w'.leaked)
  {
    CodeLookupIsFilter(w.store, code, s);
    WriteClosedView(w.store, s.id, Written);
    var w' := CloseOne(w, s.id, NO_FAULTS);
    if ing in w'.ingresses && w'.ingresses[ing] == s.id {
      CloseRemovesIngresses(w, s.id, NO_FAULTS, ing);
    }
  }

  /** From an empty server, over every run: an existing ingress of a stored session is
      in the session's stored ingress set unless its rollback or its recording failed. */
  lemma IngressesAreRecorded(now: nat, ttl: nat, lag: nat, rs: seq<Request>, ing: string)
    requires ttl > 0 && LegalRun(EmptyWorld(now, ttl, lag), rs)
    ensures var w := Serve(EmptyWorld(now, ttl, lag), rs);
            ing in w.ingresses && ing !in w.leaked && Get(w.store.db, SessionKey(w.ingresses[ing])).Some?
            ==> ing in MembersAt(w.store.db, IngressKey(w.ingresses[ing]))
  {
    ServeKeeps(EmptyWorld(now, ttl, lag), rs);
    assert Tracked(Serve(EmptyWorld(now, ttl, lag), rs), ing);
  }

  // ---- what is never cleaned up ----

  predicate Gone(w: World, id: string) { id in w.store.used && Get(w.store.db, SessionKey(id)).None? }

  /** A session without a record that is still in the active set. */
  predicate Lingering(w: World, id: string) { Gone(w, id) && id in ActiveScores(w.store.db) }

  /** An ingress in LiveKit whose session has no record. */
  predicate Orphaned(w: World, id: string, ing: string) {
    Gone(w, id) && ing in w.ingresses && w.ingresses[ing] == id
  }

  predicate Abandoned(w: World, id: string, ing: string) { Lingering(w, id) && Orphaned(w, id, ing) }

  predicate KeepsIngress(w: World, w': World, id: string, ing: string) {
    ing in w.ingresses && w.ingresses[ing] == id ==> ing in w'.ingresses && w'.ingresses[ing] == id
  }

  /** What a step that cleans up nothing of a session leaves. */
  predicate Spares(w: World, w': World, id: string, ing: string) {
    (id in ActiveScores(w.store.db) ==> id in ActiveScores(w'.store.db)) && KeepsIngress(w, w', id, ing)
  }

  /** Closing another session. */
  lemma CloseOneSpares(w: World, other: string, f: CloseFaults, id: string, ing: string)
    requires WInv(w) && GetSession(w.store.db, other).Ok? && other != id
    ensures Spares(w, CloseOne(w, other, f), id, ing)
  {
    WriteClosedView(w.store, other, f.update);
    assert Tracked(w, ing) && OwnMembers(w, other, ing);
  }

  lemma {:induction false} CloseAllSpares(w: World, todo: seq<(string, CloseFaults)>, id: string, ing: string)
    requires WInv(w) && forall i :: 0 <= i < |todo| ==> GetSession(w.store.db, todo[i].0).Ok? && todo[i].0 != id
    ensures Spares(w, CloseAll(w, todo), id, ing)
    decreases |todo|
  {
    if todo != [] {
      var w1 := CloseOne(w, todo[0].0, todo[0].1);
      CloseOneKeeps(w, todo[0].0, todo[0].1);
      CloseOneSpares(w, todo[0].0, todo[0].1, id, ing);
      forall i | 0 <= i < |todo| ensures GetSession(w1.store.db, todo[i].0).Ok? {
        assert ClosedOrSame(w.store.db, w1.store.db, todo[i].0);
      }
      CloseAllSpares(w1, todo[1..], id, ing);
    }
  }

  /** A CloseSession by its creator whose lookup leads to this session. */
  predicate ClosesIt(w: World, r: Request, id: string) {
    r.CloseSession? && r.code != "" && r.looked && GetByCode(w.store.db, r.code).Ok?
    && GetByCode(w.store.db, r.code).value.id == id && GetByCode(w.store.db, r.code).value.createdBy == r.user
  }

  lemma CloseRequestSpares(w: World, r: Request, id: string, ing: string)
    requires WInv(w) && r.CloseSession? && !ClosesIt(w, r, id)
    ensures Spares(w, Handle(w, r).0, id, ing)
  {
    if r.code != "" && r.looked && GetByCode(w.store.db, r.code).Ok? {
      var s := GetByCode(w.store.db, r.code).value;
      CodeLookupIsFilter(w.store, r.code, s);
      if s.id != id { CloseOneSpares(w, s.id, r.faults, id, ing); }
    }
  }

  /** A sweep deletes no ingress of a session that is closed or gone, and does not drop one
      without a record from the active set. */
  lemma SweepSpares(w: World, r: Request, id: string, ing: string)
    requires WInv(w) && r.Sweep? && Possible(w, r) && Retired(w, id)
    ensures KeepsIngress(w, Handle(w, r).0, id, ing)
    ensures Gone(w, id) ==> Spares(w, Handle(w, r).0, id, ing)
  {
    var w1 := WithDb(w, PruneActive(w.store.db, r.nowSec, r.listing.spared));
    PruneActiveView(w.store, r.nowSec, r.listing.spared);
    TrackingKept(w, w1.store);
    PrunedScores(w.store.db, r.nowSec, r.listing.spared);
    CloseAllSpares(w1, r.todo, id, ing);
  }

  /** No request brings a session without a record back, takes it out of the active set or
      deletes an ingress of it. */
  lemma AbandonedStep(w: World, r: Request, id: string, ing: string)
    requires WInv(w) && Possible(w, r) && Gone(w, id)
    ensures Gone(Handle(w, r).0, id) && Spares(w, Handle(w, r).0, id, ing)
  {
    HandleKeeps(w, r);
    assert Fate(w.store, Handle(w, r).0.store.db, id) && Indexed(Handle(w, r).0.store, id);
    assert r.CloseSession? && ClosesIt(w, r, id) ==> Carries(w.store, GetByCode(w.store.db, r.code).value, r.code) by {
      if r.CloseSession? && r.code != "" { LookupFinds(w.store, r.code); }
    }
    match r
    case CreateSession(_, _, _, _, _, _, _, _) => CreateRequestView(w, r);
    case JoinSession(_, _, _, _, _) => JoinEffect(w, r);
    case CloseSession(_, _, _, _) => CloseRequestSpares(w, r, id, ing);
    case Sweep(_, _, _) => SweepSpares(w, r, id, ing);
    case Tick(t) => assert Sound(w.store.db, ActiveKey);
    case GetMySessions(user, listing) => PrunedMembers(w.store.db, user, listing.spared);
  }

  /** When a session's record is gone, its id stays in the active set and its ingresses
      stay in LiveKit in every later state: no request, no sweep and no passage of time
      removes them. */
  lemma {:induction false} ExpiredSessionsAreNeverCleanedUp(w: World, rs: seq<Request>, id: string, ing: string)
    requires WInv(w) && LegalRun(w, rs) && Gone(w, id)
    ensures Gone(Serve(w, rs), id) && Spares(w, Serve(w, rs), id, ing)
    ensures Abandoned(w, id, ing) ==> Abandoned(Serve(w, rs), id, ing)
    decreases |rs|
  {
    if rs != [] {
      HandleKeeps(w, rs[0]);
      AbandonedStep(w, rs[0], id, ing);
      ExpiredSessionsAreNeverCleanedUp(Handle(w, rs[0]).0, rs[1..], id, ing);
    }
  }

  /** An open session with an ingress is abandoned by the passing of time exactly when its
      hash does not live to see it: nothing else is needed. Its create was whole, or it
      would not be in the active set; its ingresses are orphaned either way. */
  lemma AbandonedExactlyWhenExpired(w: World, t: nat, id: string, ing: string)
    requires WInv(w) && IsOpen(w.store.db, id) && w.store.db.now <= t
    requires ing in w.ingresses && w.ingresses[ing] == id
    ensures var w', dead := Handle(w, Tick(t)).0, !Alive(w.store.db.entries[SessionKey(id)], t);
            && (Orphaned(w', id, ing) <==> dead)
            && (Lingering(w', id) <==> dead && id !in w.store.cut)
            && (id !in w.store.cut ==> (Abandoned(w', id, ing) <==> dead))
  {
    assert Known(w.store, id) && Indexed(w.store, id) && Sound(w.store.db, ActiveKey) && ScoresOwn(w.store, id);
  }

  // ---- a run that abandons a session ----

  lemma ServeCons(w: World, r: Request, rs: seq<Request>)
    ensures Serve(w, [r] + rs) == Serve(Handle(w, r).0, rs)
    ensures LegalRun(w, [r] + rs) <==> Possible(w, r) && LegalRun(Handle(w, r).0, rs)
  {
    assert ([r] + rs)[1..] == rs;
  }

  lemma ServeThree(w: World, a: Request, b: Request, t: nat) returns (rs: seq<Request>)
    requires Possible(w, a) && Possible(Handle(w, a).0, b)
    ensures |rs| == 3 && rs[0] == a && rs[1] == b && rs[2] == Tick(t)
    ensures LegalRun(w, rs) && Serve(w, rs) == Handle(Handle(Handle(w, a).0, b).0, Tick(t)).0
  {
    rs := [a] + ([b] + ([Tick(t)] + []));
    ServeCons(w, a, [b] + ([Tick(t)] + []));
    ServeCons(Handle(w, a).0, b, [Tick(t)] + []);
    ServeCons(Handle(Handle(w, a).0, b).0, Tick(t), []);
  }

  /** A session just created is open, found by its code, and its hash lives one lifetime. */
  lemma CleanCreate(w: World, r: Request) returns (w': World, s: Session)
    requires WInv(w) && r.CreateSession? && Possible(w, r) && r.user != "" && r.cameras > 0
    requires r.stored.Done? && r.granted.Done?
    ensures w' == Handle(w, r).0 && WInv(w') && w'.owners == w.owners && w'.store.db.now == w.store.db.now
    ensures s.id == r.id && s.status != CLOSED && GetByCode(w'.store.db, r.code) == Ok(s) && s.id !in w'.store.cut
    ensures Get(w'.store.db, SessionKey(s.id)).Some?
    ensures Get(w'.store.db, SessionKey(s.id)).value.expiry == At(w.store.db.now + 1000 * w.store.ttl)
  {
    CreateThenLookUp(w, r);
    CreateRequestView(w, r);
    w' := Handle(w, r).0;
    s := GetByCode(w'.store.db, r.code).value;
    assert Known(w.store, s.id);
  }

  /** A session that is open while a camera joins, and then left alone until `t`. */
  lemma JoinedAndLeft(w: World, s: Session, code: string, user: string, ing: string, t: nat)
    requires WInv(w) && code != "" && user != "" && ing !in w.owners && w.store.db.now <= t
    requires GetByCode(w.store.db, code) == Ok(s) && s.status != CLOSED && s.id !in w.store.cut
    requires Get(w.store.db, SessionKey(s.id)).Some? && !Alive(Get(w.store.db, SessionKey(s.id)).value, t)
    ensures var join := JoinSession(code, user, "camera", ing, CLEAN_JOIN);
            Abandoned(Handle(Handle(w, join).0, Tick(t)).0, s.id, ing)
  {
    var join := JoinSession(code, user, "camera", ing, CLEAN_JOIN);
    var w' := Handle(w, join).0;
    LookupFinds(w.store, code);
    CleanCameraJoin(w, code, user, ing, s);
    JoinEffect(w, join);
    assert Get(w'.store.db, SessionKey(s.id)) == Get(w.store.db, SessionKey(s.id));
    AbandonedExactlyWhenExpired(w', t, s.id, ing);
  }

  /** From every state, and so from an empty server: a session is created, a camera joins
      it, and nothing happens for a lifetime. No call fails, and the session and its
      ingress are abandoned. */
  lemma EveryIdleSessionIsAbandoned(w: World, r: Request, user: string, ing: string) returns (rs: seq<Request>)
    requires WInv(w) && r.CreateSession? && Possible(w, r) && r.user != "" && r.cameras > 0
    requires r.stored.Done? && r.granted.Done? && user != "" && ing !in w.owners
    ensures |rs| == 3 && rs[0] == r && rs[1] == JoinSession(r.code, user, "camera", ing, CLEAN_JOIN)
    ensures rs[2] == Tick(w.store.db.now + 1000 * w.store.ttl)
    ensures LegalRun(w, rs) && Abandoned(Serve(w, rs), r.id, ing)
  {
    var join, t := JoinSession(r.code, user, "camera", ing, CLEAN_JOIN), w.store.db.now + 1000 * w.store.ttl;
    var w1, s := CleanCreate(w, r);
    JoinedAndLeft(w1, s, r.code, user, ing, t);
    rs := ServeThree(w, r, join, t);
  }

  /** The empty server is such a state. */
  lemma ARunThatAbandons(now: nat, ttl: nat, lag: nat, r: Request, user: string, ing: string)
    requires ttl > 0 && r.CreateSession? && r.user != "" && r.cameras > 0 && r.code != "" && r.createdAt != ""
    requires r.stored.Done? && r.granted.Done? && user != "" && r.scored <= now <= r.scored + lag
    ensures exists rs :: LegalRun(EmptyWorld(now, ttl, lag), rs)
                         && Abandoned(Serve(EmptyWorld(now, ttl, lag), rs), r.id, ing)
  {
    assert WInv(EmptyWorld(now, ttl, lag));
    var rs := EveryIdleSessionIsAbandoned(EmptyWorld(now, ttl, lag), r, user, ing);
  }

  // ---- sweeps without a fault ----

  /** No call of the sweep fails. */
  predicate FaultFree(r: Request)
    requires r.Sweep?
  {
    r.listing == Listing(true, {}) && AllClean(r.todo)
  }

  predicate AllClean(todo: seq<(string, CloseFaults)>) {
    forall i :: 0 <= i < |todo| ==> todo[i].1 == NO_FAULTS
  }

  // ---- a pass without a fault ----

  function Ids(todo: seq<(string, CloseFaults)>): set<string> { set i | 0 <= i < |todo| :: todo[i].0 }

  lemma IdsConcat(a: seq<(string, CloseFaults)>, b: seq<(string, CloseFaults)>)
    ensures Ids(a + b) == Ids(a) + Ids(b)
  {
    forall id | id in Ids(b) ensures id in Ids(a + b) {
      var i :| 0 <= i < |b| && b[i].0 == id;
      assert (a + b)[|a| + i].0 == id;
    }
    forall id | id in Ids(a) ensures id in Ids(a + b) {
      var i :| 0 <= i < |a| && a[i].0 == id;
      assert (a + b)[i].0 == id;
    }
  }

  /** The recorded ingresses of some sessions. */
  function IngressesOf(db: Db, ids: set<string>): set<string> {
    set id, ing | id in ids && ing in MembersAt(db, IngressKey(id)) :: ing
  }

  /** The entry under `k` once the sessions `ids` are closed. */
  function ClosedEntry(db: Db, ids: set<string>, k: Key): Option<Entry> {
    var e := Get(db, k);
    match k
    case SessionKey(id) => if id in ids then Effect(HSetRecord(map[FStatus := CLOSED]), e, db.now) else e
    case ActiveKey => (
      match e
      case Some(Entry(Scores(sc), x)) => if ids == {} then e else KeepScores(sc - ids, x)
      case _ => e)
    case _ => e
  }

  /** `w'` is `w` with the sessions `ids` closed: in whatever order, however often. */
  ghost predicate ClosedAs(w: World, ids: set<string>, w': World) {
    && w' == w.(store := w.store.(db := w'.store.db), ingresses := w.ingresses - IngressesOf(w.store.db, ids))
    && w'.store.db.now == w.store.db.now
    && (forall k :: Get(w'.store.db, k) == ClosedEntry(w.store.db, ids, k))
  }

  lemma CloseOneAs(w: World, id: string)
    requires WInv(w) && GetSession(w.store.db, id).Ok?
    ensures ClosedAs(w, {id}, CloseOne(w, id, NO_FAULTS))
  {
    assert Sound(w.store.db, ActiveKey);
    assert IngressesOf(w.store.db, {id}) == MembersAt(w.store.db, IngressKey(id)) - {};
  }

  lemma ClosedEntryTwice(db: Db, a: set<string>, db1: Db, b: set<string>, k: Key)
    requires db1.now == db.now && Get(db1, k) == ClosedEntry(db, a, k)
    ensures ClosedEntry(db1, b, k) == ClosedEntry(db, a + b, k)
  {
    var m := map[FStatus := CLOSED];
    match Get(db, k)
    case Some(Entry(Record(h), _)) => assert h + m + m == h + m;
    case Some(Entry(Scores(sc), _)) => assert (sc - a) - b == sc - (a + b) && a + {} == a && {} + b == b;
    case _ => assert m + m == m;
  }

  lemma ClosedAsTwice(w: World, a: set<string>, w1: World, b: set<string>, w2: World)
    requires ClosedAs(w, a, w1) && ClosedAs(w1, b, w2)
    ensures ClosedAs(w, a + b, w2)
  {
    forall k ensures Get(w2.store.db, k) == ClosedEntry(w.store.db, a + b, k) {
      ClosedEntryTwice(w.store.db, a, w1.store.db, b, k);
    }
    forall id ensures MembersAt(w1.store.db, IngressKey(id)) == MembersAt(w.store.db, IngressKey(id)) {}
    assert IngressesOf(w1.store.db, b) == IngressesOf(w.store.db, b);
    assert IngressesOf(w.store.db, a + b) == IngressesOf(w.store.db, a) + IngressesOf(w.store.db, b);
  }

  predicate AllStored(db: Db, todo: seq<(string, CloseFaults)>) {
    forall i :: 0 <= i < |todo| ==> GetSession(db, todo[i].0).Ok?
  }

  lemma FirstAs(w: World, todo: seq<(string, CloseFaults)>) returns (w1: World)
    requires WInv(w) && AllClean(todo) && AllStored(w.store.db, todo) && todo != []
    ensures w1 == CloseOne(w, todo[0].0, todo[0].1) && WInv(w1) && AllStored(w1.store.db, todo[1..])
    ensures ClosedAs(w, {todo[0].0}, w1) && AllClean(todo[1..]) && Ids(todo) == {todo[0].0} + Ids(todo[1..])
  {
    w1 := CloseOne(w, todo[0].0, todo[0].1);
    CloseOneKeeps(w, todo[0].0, NO_FAULTS);
    CloseOneAs(w, todo[0].0);
    forall i | 0 <= i < |todo| - 1 ensures GetSession(w1.store.db, todo[1..][i].0).Ok? {
      assert ClosedOrSame(w.store.db, w1.store.db, todo[i + 1].0);
    }
    IdsConcat([todo[0]], todo[1..]);
    assert [todo[0]] + todo[1..] == todo && Ids([todo[0]]) == {todo[0].0};
  }

  /** A pass over any list of sessions, with repetitions or without, closes them all. */
  lemma {:induction false} CloseAllAs(w: World, todo: seq<(string, CloseFaults)>)
    requires WInv(w) && AllClean(todo) && AllStored(w.store.db, todo)
    ensures ClosedAs(w, Ids(todo), CloseAll(w, todo))
    decreases |todo|
  {
    if todo == [] {
      assert IngressesOf(w.store.db, {}) == {} && w.ingresses - {} == w.ingresses;
    } else {
      var w1 := FirstAs(w, todo);
      CloseAllAs(w1, todo[1..]);
      ClosedAsTwice(w, {todo[0].0}, w1, Ids(todo[1..]), CloseAll(w1, todo[1..]));
    }
  }

  /** So two passes over the same sessions do the same, in whatever order. */
  lemma SamePass(w: World, a: seq<(string, CloseFaults)>, b: seq<(string, CloseFaults)>)
    requires WInv(w) && AllClean(a) && AllClean(b) && Ids(a) == Ids(b)
    requires forall id :: id in Ids(a) ==> GetSession(w.store.db, id).Ok?
    ensures CloseAll(w, a) == CloseAll(w, b)
  {
    forall i | 0 <= i < |a| ensures GetSession(w.store.db, a[i].0).Ok? { assert a[i].0 in Ids(a); }
    forall i | 0 <= i < |b| ensures GetSession(w.store.db, b[i].0).Ok? { assert b[i].0 in Ids(b); }
    CloseAllAs(w, a);
    CloseAllAs(w, b);
    forall k ensures SameAt(CloseAll(w, a).store.db, CloseAll(w, b).store.db, k) {}
    SameSpace(CloseAll(w, a).store.db, CloseAll(w, b).store.db);
  }

  /** What that means for one session. */
  lemma ClosedAsViews(w: World, ids: set<string>, w': World, id: string)
    requires WInv(w) && ClosedAs(w, ids, w') && (id in ids ==> GetSession(w.store.db, id).Ok?)
    ensures GetSession(w'.store.db, id) ==
            if id in ids then Ok(GetSession(w.store.db, id).value.(status := CLOSED)) else GetSession(w.store.db, id)
    ensures ActiveScores(w'.store.db) == ActiveScores(w.store.db) - ids
  {
    var sc := ActiveScores(w.store.db);
    assert Sound(w.store.db, ActiveKey) && sc - {} == sc && (sc == map[] ==> sc - ids == map[]);
    assert Get(w'.store.db, SessionKey(id)) == ClosedEntry(w.store.db, ids, SessionKey(id));
    if id in ids { SetStatusHasView(w.store.db, id, CLOSED); }
  }

  // ---- the sweep ----

  predicate DueAndOpen(db: Db, nowSec: int, id: string) { id in DueIds(db, nowSec) && IsOpen(db, id) }

  /** What a fault-free sweep at `nowSec` does to one id. */
  predicate SweptAt(db: Db, db': Db, nowSec: int, id: string) {
    && GetSession(db', id) ==
       (if DueAndOpen(db, nowSec, id) then Ok(GetSession(db, id).value.(status := CLOSED)) else GetSession(db, id))
    && (id in ActiveScores(db') <==> id in ActiveScores(db) && !(id in DueIds(db, nowSec) && GetSession(db, id).Ok?))
    && (id in ActiveScores(db') ==> ActiveScores(db')[id] == ActiveScores(db)[id])
  }

  /** A fault-free sweep is a pruning, then the closing of the due open sessions. */
  lemma SweepIsAPass(w: World, r: Request)
    requires WInv(w) && r.Sweep? && Possible(w, r) && FaultFree(r)
    ensures var w1 := WithDb(w, PruneActive(w.store.db, r.nowSec, {}));
            && WInv(w1) && ClosedAs(w1, Ids(r.todo), Handle(w, r).0)
            && (forall id :: GetSession(w1.store.db, id) == GetSession(w.store.db, id))
            && (forall id :: id in Ids(r.todo) <==> DueAndOpen(w.store.db, r.nowSec, id))
  {
    var w1 := WithDb(w, PruneActive(w.store.db, r.nowSec, {}));
    PruneActiveView(w.store, r.nowSec, {});
    TrackingKept(w, w1.store);
    CloseAllAs(w1, r.todo);
  }

  lemma SweptId(w: World, r: Request, id: string)
    requires WInv(w) && r.Sweep? && Possible(w, r) && FaultFree(r)
    ensures SweptAt(w.store.db, Handle(w, r).0.store.db, r.nowSec, id)
  {
    SweepIsAPass(w, r);
    ClosedAsViews(WithDb(w, PruneActive(w.store.db, r.nowSec, {})), Ids(r.todo), Handle(w, r).0, id);
    PrunedScores(w.store.db, r.nowSec, {});
  }

  /** What a fault-free sweep does to one ingress. */
  predicate IngressSwept(w: World, w': World, nowSec: int, ing: string) {
    var due := ing in w.ingresses && DueAndOpen(w.store.db, nowSec, w.ingresses[ing]);
    && (ing in w'.ingresses ==> ing in w.ingresses && w'.ingresses[ing] == w.ingresses[ing])
    && (due && ing in w'.ingresses ==> ing in w.leaked)
    && (ing in w.ingresses && !due ==> ing in w'.ingresses)
  }

  /** A fault-free sweep closes exactly the stored open sessions whose score is at most
      `nowSec`, leaves every other record and every other key as it was, removes from the
      active set exactly the due ids that have a record, leaves of the ingresses of the
      sessions it closed only those leaked before, and deletes no other. */
  lemma SweepClosesExactlyTheDue(w: World, r: Request)
    requires WInv(w) && r.Sweep? && Possible(w, r) && FaultFree(r)
    ensures var w' := Handle(w, r).0;
            && (forall id :: SweptAt(w.store.db, w'.store.db, r.nowSec, id))
            && (forall k: Key :: !k.SessionKey? && k != ActiveKey ==> Get(w'.store.db, k) == Get(w.store.db, k))
            && (forall ing :: IngressSwept(w, w', r.nowSec, ing))
  {
    SweepKeeps(w, r);
    SweepIsAPass(w, r);
    forall id ensures SweptAt(w.store.db, Handle(w, r).0.store.db, r.nowSec, id) { SweptId(w, r, id); }
    forall ing ensures IngressSwept(w, Handle(w, r).0, r.nowSec, ing) {
      var w1 := WithDb(w, PruneActive(w.store.db, r.nowSec, {}));
      assert Tracked(w1, ing);
      if ing in IngressesOf(w1.store.db, Ids(r.todo)) {
        var id :| id in Ids(r.todo) && ing in MembersAt(w1.store.db, IngressKey(id));
        assert OwnMembers(w1, id, ing);
      }
    }
  }

  /** A second sweep at the same `nowSec`, however faulty, finds nothing to do and
      changes nothing. */
  lemma SweepIsIdempotent(w: World, r: Request, again: Request)
    requires WInv(w) && r.Sweep? && Possible(w, r) && FaultFree(r)
    requires again.Sweep? && again.nowSec == r.nowSec && Possible(Handle(w, r).0, again)
    ensures Handle(Handle(w, r).0, again).0 == Handle(w, r).0
  {
    var w', nowSec := Handle(w, r).0, r.nowSec;
    SweepClosesExactlyTheDue(w, r);
    forall id | id in DueIds(w'.store.db, nowSec) ensures !GetSession(w'.store.db, id).Ok? {
      assert SweptAt(w.store.db, w'.store.db, nowSec, id);
    }
    if again.todo != [] {
      WorkIsDue(w'.store.db, nowSec, again.listing.ok, again.todo);
      assert false;
    }
    NothingToPrune(w'.store.db, nowSec, again.listing.spared);
  }

  lemma WorkIsDue(db: Db, nowSec: int, ok: bool, todo: seq<(string, CloseFaults)>)
    requires Worklist(db, nowSec, ok, todo) && todo != []
    ensures exists id :: id in DueIds(db, nowSec) && GetSession(db, id).Ok?
  {
    assert todo[0].0 in DueIds(db, nowSec) && IsOpen(db, todo[0].0);
  }

  lemma NothingToPrune(db: Db, nowSec: int, spared: set<string>)
    requires forall id :: id in DueIds(db, nowSec) ==> !IsClosed(db, id)
    ensures PruneActive(db, nowSec, spared) == db
  {
    var sc := ActiveScores(db);
    assert (set j | j in sc && sc[j] <= nowSec && IsClosed(db, j) && j !in spared) == {} by {
      forall j | j in sc && sc[j] <= nowSec ensures !IsClosed(db, j) { assert j in DueIds(db, nowSec); }
    }
  }

  // ---- two sweeps at once ----

  lemma {:induction false} CloseAllConcat(w: World, a: seq<(string, CloseFaults)>, b: seq<(string, CloseFaults)>)
    ensures CloseAll(w, a + b) == CloseAll(CloseAll(w, a), b)
    decreases |a|
  {
    if a == [] {
      assert a + b == b;
    } else {
      assert (a + b)[0] == a[0] && (a + b)[1..] == a[1..] + b;
      CloseAllConcat(CloseOne(w, a[0].0, a[0].1), a[1..], b);
    }
  }

  lemma DistinctSplit(todo: seq<(string, CloseFaults)>, k: nat)
    requires k <= |todo| && forall i, j :: 0 <= i < j < |todo| ==> todo[i].0 != todo[j].0
    ensures Ids(todo) == Ids(todo[..k]) + Ids(todo[k..]) && Ids(todo[..k]) !! Ids(todo[k..])
  {
    IdsConcat(todo[..k], todo[k..]);
    assert todo[..k] + todo[k..] == todo;
    forall id | id in Ids(todo[..k]) ensures id !in Ids(todo[k..]) {
      var i :| 0 <= i < k && todo[i].0 == id;
      forall j | 0 <= j < |todo| - k ensures todo[k..][j].0 != id { assert todo[k..][j] == todo[k + j]; }
    }
  }

  /** After the closing of some of the due open sessions: one due session. */
  lemma MidSweep(w: World, nowSec: int, ids: set<string>, w': World, id: string)
    requires WInv(w) && ClosedAs(w, ids, w') && (id in ids ==> GetSession(w.store.db, id).Ok?)
    requires id in DueIds(w.store.db, nowSec) ==> !IsClosed(w.store.db, id)
    ensures id in DueIds(w'.store.db, nowSec) ==> !IsClosed(w'.store.db, id)
    ensures DueAndOpen(w'.store.db, nowSec, id) <==> DueAndOpen(w.store.db, nowSec, id) && id !in ids
  {
    ClosedAsViews(w, ids, w', id);
  }

  /** The state when a fault-free sweep has closed `k` of its sessions. */
  function HalfSwept(w: World, r: Request, k: nat): World
    requires r.Sweep? && k <= |r.todo|
  {
    CloseAll(WithDb(w, PruneActive(w.store.db, r.nowSec, {})), r.todo[..k])
  }

  lemma HalfSweptDue(w: World, r: Request, k: nat, id: string)
    requires WInv(w) && r.Sweep? && Possible(w, r) && FaultFree(r) && k <= |r.todo|
    ensures var db := HalfSwept(w, r, k).store.db;
            && WInv(HalfSwept(w, r, k))
            && (id in DueIds(db, r.nowSec) ==> !IsClosed(db, id))
            && (DueAndOpen(db, r.nowSec, id) <==> id in Ids(r.todo[k..]))
  {
    var w1 := WithDb(w, PruneActive(w.store.db, r.nowSec, {}));
    SweepIsAPass(w, r);
    DistinctSplit(r.todo, k);
    forall i | 0 <= i < k ensures GetSession(w1.store.db, r.todo[i].0).Ok? { assert r.todo[i].0 in Ids(r.todo); }
    CloseAllKeeps(w1, r.todo[..k]);
    CloseAllAs(w1, r.todo[..k]);
    PrunedScores(w.store.db, r.nowSec, {});
    MidSweep(w1, r.nowSec, Ids(r.todo[..k]), HalfSwept(w, r, k), id);
  }

  /** A second one at the same `nowSec` then finds exactly the others. */
  lemma SecondListing(w: World, r: Request, k: nat, again: Request)
    requires WInv(w) && r.Sweep? && Possible(w, r) && FaultFree(r) && k <= |r.todo|
    requires again.Sweep? && again.nowSec == r.nowSec && FaultFree(again) && Possible(HalfSwept(w, r, k), again)
    ensures var w2 := HalfSwept(w, r, k);
            && WInv(w2) && PruneActive(w2.store.db, r.nowSec, {}) == w2.store.db
            && Ids(again.todo) == Ids(r.todo[k..])
            && (forall id :: id in Ids(r.todo[k..]) ==> GetSession(w2.store.db, id).Ok?)
  {
    var w2 := HalfSwept(w, r, k);
    HalfSweptDue(w, r, k, "");
    forall id
      ensures id in DueIds(w2.store.db, r.nowSec) ==> !IsClosed(w2.store.db, id)
      ensures DueAndOpen(w2.store.db, r.nowSec, id) <==> id in Ids(r.todo[k..])
    {
      HalfSweptDue(w, r, k, id);
    }
    NothingToPrune(w2.store.db, r.nowSec, {});
    SweepIsAPass(w2, again);
  }

  /** However the closes of two overlapping fault-free sweeps at one `nowSec` interleave,
      with the second listing after any number of closes of the first, they leave what one
      of them alone would. */
  lemma OverlappingSweepsAgree(w: World, r: Request, k: nat, again: Request, mix: seq<(string, CloseFaults)>)
    requires WInv(w) && r.Sweep? && Possible(w, r) && FaultFree(r) && k <= |r.todo|
    requires again.Sweep? && again.nowSec == r.nowSec && FaultFree(again) && Possible(HalfSwept(w, r, k), again)
    requires AllClean(mix) && Ids(mix) == Ids(r.todo[k..]) + Ids(again.todo)
    ensures var w2 := HalfSwept(w, r, k);
            CloseAll(WithDb(w2, PruneActive(w2.store.db, r.nowSec, {})), mix) == Handle(w, r).0
  {
    var w2 := HalfSwept(w, r, k);
    SecondListing(w, r, k, again);
    assert WithDb(w2, PruneActive(w2.store.db, r.nowSec, {})) == w2;
    assert Ids(mix) == Ids(r.todo[k..]);
    SamePass(w2, mix, r.todo[k..]);
    RestOfSweep(w, r, k);
  }

  lemma RestOfSweep(w: World, r: Request, k: nat)
    requires r.Sweep? && FaultFree(r) && k <= |r.todo|
    ensures CloseAll(HalfSwept(w, r, k), r.todo[k..]) == Handle(w, r).0
  {
    CloseAllConcat(WithDb(w, PruneActive(w.store.db, r.nowSec, {})), r.todo[..k], r.todo[k..]);
    assert r.todo[..k] + r.todo[k..] == r.todo;
  }
}
