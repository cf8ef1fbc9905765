/**
 Agreement of the derived structures with the session hashes, over every serial
 run of store operations and clock ticks.
 */
module StoreIndex {
  import opened Common
  import opened Redis
  import opened Keys
  import opened SessionStore

  /** `used` holds every session id ever created; a new id is never one of them. `cut`
      gives the stage of the creates that ended in an error before their last command.
      `lag` bounds the time between computing a create's score and its commands taking
      effect. */
  datatype Store = Store(db: Db, ttl: nat, used: set<string>, cut: map<string, nat>, lag: nat)

  /** The stage the create of `id` reached. */
  function StageOf(st: Store, id: string): nat { if id in st.cut then st.cut[id] else WHOLE }

  predicate Typed(k: Key, e: Entry) {
    match k
    case SessionKey(_) => e.value.Record?
    case AccessKey(_) => e.value.Roles?
    case IngressKey(_) => e.value.Members?
    case RoomKey(_) => e.value.Text?
    case UserKey(_) => e.value.Members?
    case ActiveKey => e.value.Scores? && e.expiry.Never?
    case LockKey => e.value.Text?
  }

  predicate CodePointsBack(code: string, room: Option<Entry>, id: string, x: Expiry) {
    code != "" ==> room.Some? && room.value.value == Text(id) && room.value.expiry.NotBefore(x)
  }

  predicate ListedForUser(list: Option<Entry>, id: string, x: Expiry) {
    id in MembersIn(list) && list.value.expiry.NotBefore(x)
  }

  /** The second of the score begins no later than the hash expires, and no earlier than a
      second and the lag before. */
  predicate ScoreMatches(scores: map<string, int>, id: string, x: Expiry, lag: nat) {
    id in scores ==> x.At? && 1000 * scores[id] <= x.ms < 1000 * scores[id] + 1000 + lag
  }

  /** A session whose create reached `stage` is in every index that stage has written. */
  predicate Linked(stage: nat, id: string, s: Session, x: Expiry, room: Option<Entry>, list: Option<Entry>,
                   scores: map<string, int>, lag: nat) {
    && s.id == id
    && (stage >= CODE_WRITTEN ==> CodePointsBack(s.roomCode, room, id, x))
    && (stage >= LISTED ==> ListedForUser(list, id, x))
    && (stage >= WHOLE && s.status != CLOSED ==> id in scores)
    && ScoreMatches(scores, id, x, lag)
  }

  /** The session hash under `id`, if there is one, agrees with the indexes. */
  predicate Indexed(st: Store, id: string) {
    match Get(st.db, SessionKey(id))
    case None => true
    case Some(e) =>
      match SessionIn(Some(e))
      case Err(_) => false
      case Ok(s) =>
        Linked(StageOf(st, id), id, s, e.expiry,
               Get(st.db, RoomKey(s.roomCode)), Get(st.db, UserKey(s.createdBy)), ActiveScores(st.db), st.lag)
  }

  predicate RoomPointsBack(st: Store, code: string) {
    match Get(st.db, RoomKey(code))
    case Some(Entry(Text(id), _)) =>
      id in st.used
      && (GetSession(st.db, id).Ok? ==>
            GetSession(st.db, id).value.roomCode == code && StageOf(st, id) >= CODE_WRITTEN)
    case _ => true
  }

  predicate ListsOwn(st: Store, user: string, id: string) {
    id in MembersAt(st.db, UserKey(user)) ==>
      id in st.used && (GetSession(st.db, id).Ok? ==> GetSession(st.db, id).value.createdBy == user)
  }

  predicate Sound(db: Db, k: Key) {
    match Get(db, k)
    case None => true
    case Some(e) => Typed(k, e) && Alive(e, db.now)
  }

  /** A stored session has a used id and, unless its create ended with its first command,
      does not outlive a session created now. */
  predicate Known(st: Store, id: string) {
    match Get(st.db, SessionKey(id))
    case None => true
    case Some(e) =>
      id in st.used && (StageOf(st, id) >= EXPIRES ==> At(st.db.now + 1000 * st.ttl).NotBefore(e.expiry))
  }

  predicate ScoresOwn(st: Store, id: string) {
    id in ActiveScores(st.db) ==> id in st.used && id !in st.cut
  }

  ghost predicate Inv(st: Store) {
    && st.ttl > 0
    && (forall k :: Sound(st.db, k))
    && (forall id :: Indexed(st, id))
    && (forall id :: Known(st, id))
    && (forall code :: RoomPointsBack(st, code))
    && (forall user, id :: ListsOwn(st, user, id))
    && (forall id :: ScoresOwn(st, id))
    && (forall id :: id in st.cut ==> id in st.used && st.cut[id] < WHOLE)
  }

  // ---- operations ----

  datatype Op =
    | OpCreate(s: Session, scored: nat)
    | OpCutCreate(s: Session, scored: nat, applied: nat)  // the retries ran out after `applied` commands
    | OpUpdate(id: string, status: string)
    | OpDelete(id: string)
    | OpCutDelete(id: string, applied: nat)  // the retries ran out after `applied` commands
    | OpListUser(user: string, spared: set<string>)
    | OpListExpired(nowSec: int, spared: set<string>)
    | OpGrant(id: string, user: string, role: string)
    | OpRevoke(id: string, user: string)
    | OpAddIngress(id: string, ingress: string)
    | OpTick(t: nat)

  /** No stored session answers to the code. NewRoomCode ensures more: that the code
      has no entry at all. */
  predicate CodeFree(db: Db, code: string) { code == "" || GetByCode(db, code).Err? }

  /** The code of the session under `id`, if it is stored, leads to no other session. */
  predicate CodeIsOwn(db: Db, id: string) {
    GetSession(db, id).Ok? && GetSession(db, id).value.roomCode != "" ==>
      var code := GetSession(db, id).value.roomCode;
      GetByCode(db, code).Err? || GetByCode(db, code).value.id == id
  }

  predicate NewSessionOk(st: Store, s: Session) {
    s.id !in st.used && s.createdAt != "" && s.maxCameras != "" && CodeFree(st.db, s.roomCode)
  }

  /** The score was computed at most `lag` before now. */
  predicate OnTime(st: Store, scored: nat) { scored <= st.db.now <= scored + st.lag }

  /** What the callers guarantee. A create uses a new id and a free room code; an update
      does not reopen a session that has left the active set; a session that is deleted
      has its code to itself, or the delete does not get as far as the code. */
  predicate Allowed(st: Store, op: Op) {
    match op
    case OpCreate(s, scored) => NewSessionOk(st, s) && OnTime(st, scored)
    case OpCutCreate(s, scored, _) => NewSessionOk(st, s) && OnTime(st, scored)
    case OpUpdate(id, status) =>
      Get(st.db, SessionKey(id)).Some? ==> status == CLOSED || id in ActiveScores(st.db) || id in st.cut
    case OpDelete(id) => CodeIsOwn(st.db, id)
    case OpCutDelete(id, n) => n < 5 || CodeIsOwn(st.db, id)
    case _ => true
  }

  /** The books after a create of which `n` commands took effect. */
  function CutShort(st: Store, s: Session, scored: nat, n: nat): Store {
    Store(CutCreate(st.db, s, scored, st.ttl, n), st.ttl, st.used + {s.id},
          if Stage(s, n) < WHOLE then st.cut[s.id := Stage(s, n)] else st.cut, st.lag)
  }

  function Step(st: Store, op: Op): Store {
    match op
    case OpCreate(s, scored) => st.(db := Create(st.db, s, scored, st.ttl), used := st.used + {s.id})
    case OpCutCreate(s, scored, n) => CutShort(st, s, scored, n)
    case OpUpdate(id, status) => st.(db := Update(st.db, id, status))
    case OpDelete(id) => st.(db := Delete(st.db, id))
    case OpCutDelete(id, n) => st.(db := CutDelete(st.db, id, n))
    case OpListUser(user, spared) => st.(db := PruneUser(st.db, user, spared))
    case OpListExpired(nowSec, spared) => st.(db := PruneActive(st.db, nowSec, spared))
    case OpGrant(id, user, role) => st.(db := Grant(st.db, id, user, role, st.ttl))
    case OpRevoke(id, user) => st.(db := Exec(st.db, AccessKey(id), HDelRole(user)))
    case OpAddIngress(id, ingress) => st.(db := AddIngress(st.db, id, ingress, st.ttl))
    case OpTick(t) => st.(db := Advance(st.db, t))
  }

  // ---- every step keeps the invariant ----

  /** No session is new or changes owner or code, no room or list gains anything. */
  ghost predicate OnlyLoses(db: Db, db': Db) {
    && (forall id :: GetSession(db', id).Ok? ==>
          GetSession(db, id).Ok?
          && GetSession(db', id).value.roomCode == GetSession(db, id).value.roomCode
          && GetSession(db', id).value.createdBy == GetSession(db, id).value.createdBy)
    && (forall code :: Get(db', RoomKey(code)) == Get(db, RoomKey(code)) || Get(db', RoomKey(code)).None?)
    && (forall user :: MembersAt(db', UserKey(user)) <= MembersAt(db, UserKey(user)))
    && ActiveScores(db').Keys <= ActiveScores(db).Keys
  }

  lemma BackPointersKeep(st: Store, db': Db)
    requires Inv(st) && OnlyLoses(st.db, db')
    ensures var st' := st.(db := db');
            && (forall code :: RoomPointsBack(st', code)) && (forall user, id :: ListsOwn(st', user, id))
            && (forall id :: ScoresOwn(st', id))
  {
    var st' := st.(db := db');
    forall code ensures RoomPointsBack(st', code) {
      assert RoomPointsBack(st, code);
      assert Get(db', RoomKey(code)) == Get(st.db, RoomKey(code)) || Get(db', RoomKey(code)).None?;
    }
    forall user, id ensures ListsOwn(st', user, id) {
      assert ListsOwn(st, user, id);
      assert MembersAt(db', UserKey(user)) <= MembersAt(st.db, UserKey(user));
    }
    forall id ensures ScoresOwn(st', id) {
      assert ScoresOwn(st, id);
      assert ActiveScores(db').Keys <= ActiveScores(st.db).Keys;
    }
  }

  /** The expiry of a creator's set after SADD alone. */
  function ListExpiry(db: Db, user: string): Expiry {
    match Get(db, UserKey(user))
    case None => Never
    case Some(e) => e.expiry
  }

  /** Everything a create leaves in the key space when it reaches `stage`. */
  ghost predicate CreateView(db: Db, s: Session, scored: nat, ttl: nat, stage: nat, db': Db) {
    var x := At(db.now + 1000 * ttl);
    var members := Members(MembersAt(db, UserKey(s.createdBy)) + {s.id});
    && db'.now == db.now
    && Get(db', SessionKey(s.id))
       == (if stage == 0 then None else Some(Entry(Record(Encode(s)), if stage < EXPIRES then Never else x)))
    && Get(db', RoomKey(s.roomCode))
       == (if s.roomCode == "" || stage < CODE_WRITTEN then Get(db, RoomKey(s.roomCode))
           else Some(Entry(Text(s.id), x)))
    && Get(db', UserKey(s.createdBy))
       == (if stage < 4 then Get(db, UserKey(s.createdBy))
           else Some(Entry(members, if stage < LISTED then ListExpiry(db, s.createdBy) else x)))
    && Get(db', ActiveKey)
       == (if stage < WHOLE then Get(db, ActiveKey)
           else Some(Entry(Scores(ActiveScores(db)[s.id := Score(scored, ttl)]), Never)))
    && (forall k :: k != SessionKey(s.id) && k != UserKey(s.createdBy) && k != ActiveKey && k != RoomKey(s.roomCode)
         ==> Get(db', k) == Get(db, k))
  }

  lemma StagesAreView(st: Store, s: Session, scored: nat, stage: nat, db': Db)
    requires Inv(st) && s.id !in st.used && db'.now == st.db.now
    requires forall k :: Get(db', k) == StageEntry(st.db, s, scored, st.ttl, stage, k)
    ensures CreateView(st.db, s, scored, st.ttl, stage, db')
  {
    assert Known(st, s.id);
    assert Sound(st.db, UserKey(s.createdBy)) && Sound(st.db, ActiveKey);
    assert {} + {s.id} == {s.id};
  }

  lemma CutCreateHasView(st: Store, s: Session, scored: nat, n: nat)
    requires Inv(st) && s.id !in st.used && n <= |CreatePipeline(s, scored, st.ttl)|
    ensures CreateView(st.db, s, scored, st.ttl, Stage(s, n), CutCreate(st.db, s, scored, st.ttl, n))
  {
    var db' := CutCreate(st.db, s, scored, st.ttl, n);
    forall k ensures db'.now == st.db.now && Get(db', k) == StageEntry(st.db, s, scored, st.ttl, Stage(s, n), k) {
      CutCreateClosedForm(st.db, s, scored, st.ttl, n, k);
    }
    assert Get(db', ActiveKey) == StageEntry(st.db, s, scored, st.ttl, Stage(s, n), ActiveKey);
    StagesAreView(st, s, scored, Stage(s, n), db');
  }

  lemma CreateHasView(st: Store, s: Session, scored: nat)
    requires Inv(st) && s.id !in st.used
    ensures CreateView(st.db, s, scored, st.ttl, WHOLE, Create(st.db, s, scored, st.ttl))
  {
    var n := |CreatePipeline(s, scored, st.ttl)|;
    CreateIsWhole(st.db, s, scored, st.ttl);
    assert CutCreate(st.db, s, scored, st.ttl, n) == CutCreate(st.db, s, scored, st.ttl, 6) by {
      CreatePipelineAt(s, scored, st.ttl);
    }
    CutCreateHasView(st, s, scored, n);
  }

  /** The books after a create that reached `stage` and left `db'`. */
  function Booked(st: Store, s: Session, stage: nat, db': Db): Store {
    Store(db', st.ttl, st.used + {s.id}, if stage < WHOLE then st.cut[s.id := stage] else st.cut, st.lag)
  }

  lemma CreateOwnIndexed(st: Store, s: Session, scored: nat, stage: nat, db': Db)
    requires Inv(st) && NewSessionOk(st, s) && OnTime(st, scored) && CreateView(st.db, s, scored, st.ttl, stage, db')
    ensures Indexed(Booked(st, s, stage, db'), s.id) && Known(Booked(st, s, stage, db'), s.id)
  {
    DecodeEncode(s);
    assert ScoresOwn(st, s.id);
  }

  /** A create that finds its code free takes no other session's code. */
  lemma CreateKeepsCodes(st: Store, s: Session, scored: nat, stage: nat, db': Db, t: Session)
    requires Inv(st) && NewSessionOk(st, s) && CreateView(st.db, s, scored, st.ttl, stage, db')
    requires Stored(st.db, t) && t.id != s.id && StageOf(st, t.id) >= CODE_WRITTEN && t.roomCode != ""
    ensures Get(db', RoomKey(t.roomCode)) == Get(st.db, RoomKey(t.roomCode))
  {
    CodeLookupIsFilter(st, t.roomCode, t);
  }

  lemma CreateKeepsListing(st: Store, s: Session, scored: nat, stage: nat, db': Db, user: string, id: string, x: Expiry)
    requires Inv(st) && CreateView(st.db, s, scored, st.ttl, stage, db')
    requires ListedForUser(Get(st.db, UserKey(user)), id, x) && At(st.db.now + 1000 * st.ttl).NotBefore(x)
    ensures ListedForUser(Get(db', UserKey(user)), id, x)
  {
    if user == s.createdBy { assert ListExpiry(st.db, user) == Get(st.db, UserKey(user)).value.expiry; }
  }

  /** A record that stays where it is stays in agreement if its place in the indexes does. */
  lemma StillIndexed(st: Store, st': Store, t: Session)
    requires Indexed(st, t.id) && Stored(st.db, t) && StageOf(st', t.id) == StageOf(st, t.id) && st'.lag == st.lag
    requires Get(st'.db, SessionKey(t.id)) == Get(st.db, SessionKey(t.id))
    requires StageOf(st, t.id) >= CODE_WRITTEN && t.roomCode != "" ==>
               Get(st'.db, RoomKey(t.roomCode)) == Get(st.db, RoomKey(t.roomCode))
    requires var x := Get(st.db, SessionKey(t.id)).value.expiry;
             StageOf(st, t.id) >= LISTED ==> ListedForUser(Get(st'.db, UserKey(t.createdBy)), t.id, x)
    requires t.id in ActiveScores(st.db) <==> t.id in ActiveScores(st'.db)
    requires t.id in ActiveScores(st.db) ==> ActiveScores(st'.db)[t.id] == ActiveScores(st.db)[t.id]
    ensures Indexed(st', t.id)
  {
  }

  lemma CreateKeepsLinks(st: Store, s: Session, scored: nat, stage: nat, db': Db, t: Session)
    requires Inv(st) && NewSessionOk(st, s) && CreateView(st.db, s, scored, st.ttl, stage, db')
    requires Stored(st.db, t) && Indexed(st, t.id) && Known(st, t.id) && t.id != s.id
    requires Get(db', SessionKey(t.id)) == Get(st.db, SessionKey(t.id))
    ensures Indexed(Booked(st, s, stage, db'), t.id)
  {
    var x := Get(st.db, SessionKey(t.id)).value.expiry;
    if StageOf(st, t.id) >= CODE_WRITTEN && t.roomCode != "" { CreateKeepsCodes(st, s, scored, stage, db', t); }
    if StageOf(st, t.id) >= LISTED { CreateKeepsListing(st, s, scored, stage, db', t.createdBy, t.id, x); }
    StillIndexed(st, Booked(st, s, stage, db'), t);
  }

  lemma CreateOtherIndexed(st: Store, s: Session, scored: nat, stage: nat, db': Db, id: string)
    requires Inv(st) && NewSessionOk(st, s) && CreateView(st.db, s, scored, st.ttl, stage, db') && id != s.id
    ensures Indexed(Booked(st, s, stage, db'), id) && Known(Booked(st, s, stage, db'), id)
  {
    assert Indexed(st, id) && Known(st, id);
    assert Get(db', SessionKey(id)) == Get(st.db, SessionKey(id));
    if Get(st.db, SessionKey(id)).Some? { CreateKeepsLinks(st, s, scored, stage, db', GetSession(st.db, id).value); }
  }

  lemma CreateSessions(st: Store, s: Session, scored: nat, stage: nat, db': Db, id: string)
    requires Inv(st) && s.id !in st.used && s.createdAt != "" && s.maxCameras != ""
    requires CreateView(st.db, s, scored, st.ttl, stage, db')
    ensures GetSession(db', id) == if id == s.id && stage > 0 then Ok(s) else GetSession(st.db, id)
  {
    DecodeEncode(s);
    assert Known(st, s.id);
  }

  lemma CreateRooms(st: Store, s: Session, scored: nat, stage: nat, db': Db, code: string)
    requires Inv(st) && NewSessionOk(st, s) && CreateView(st.db, s, scored, st.ttl, stage, db')
    ensures RoomPointsBack(Booked(st, s, stage, db'), code)
  {
    assert RoomPointsBack(st, code);
    if Get(db', RoomKey(code)).Some? && Get(db', RoomKey(code)).value.value.Text? {
      CreateSessions(st, s, scored, stage, db', Get(db', RoomKey(code)).value.value.text);
    }
  }

  lemma CreateLists(st: Store, s: Session, scored: nat, stage: nat, db': Db, user: string, id: string)
    requires Inv(st) && NewSessionOk(st, s) && CreateView(st.db, s, scored, st.ttl, stage, db')
    ensures ListsOwn(Booked(st, s, stage, db'), user, id)
  {
    assert ListsOwn(st, user, id);
    CreateSessions(st, s, scored, stage, db', id);
  }

  lemma CreateViewKeeps(st: Store, s: Session, scored: nat, stage: nat, db': Db)
    requires Inv(st) && NewSessionOk(st, s) && OnTime(st, scored) && stage <= WHOLE
    requires CreateView(st.db, s, scored, st.ttl, stage, db')
    ensures Inv(Booked(st, s, stage, db'))
  {
    var st' := Booked(st, s, stage, db');
    forall k ensures Sound(db', k) { assert Sound(st.db, k); }
    forall id ensures Indexed(st', id) && Known(st', id) {
      if id == s.id {
        CreateOwnIndexed(st, s, scored, stage, db');
      } else {
        CreateOtherIndexed(st, s, scored, stage, db', id);
      }
    }
    forall code ensures RoomPointsBack(st', code) { CreateRooms(st, s, scored, stage, db', code); }
    forall user, id ensures ListsOwn(st', user, id) { CreateLists(st, s, scored, stage, db', user, id); }
    forall id ensures ScoresOwn(st', id) { assert ScoresOwn(st, id); }
  }

  lemma CreateKeeps(st: Store, s: Session, scored: nat)
    requires Inv(st) && Allowed(st, OpCreate(s, scored))
    ensures Inv(Step(st, OpCreate(s, scored)))
  {
    CreateHasView(st, s, scored);
    CreateViewKeeps(st, s, scored, WHOLE, Create(st.db, s, scored, st.ttl));
  }

  /** A create that ends after any number of its commands harms no other session, and its
      own session agrees with the indexes it did write. */
  lemma CutCreateKeeps(st: Store, s: Session, scored: nat, n: nat)
    requires Inv(st) && Allowed(st, OpCutCreate(s, scored, n))
    ensures Inv(Step(st, OpCutCreate(s, scored, n)))
  {
    var m := CutLength(st.db, s, scored, st.ttl, n);
    CutCreateHasView(st, s, scored, m);
    CreateViewKeeps(st, s, scored, Stage(s, m), CutCreate(st.db, s, scored, st.ttl, m));
  }

  lemma CutLength(db: Db, s: Session, scored: nat, ttl: nat, n: nat) returns (m: nat)
    ensures m <= |CreatePipeline(s, scored, ttl)| && m <= n
    ensures CutCreate(db, s, scored, ttl, n) == CutCreate(db, s, scored, ttl, m) && Stage(s, n) == Stage(s, m)
  {
    CreatePipelineAt(s, scored, ttl);
    var len := |CreatePipeline(s, scored, ttl)|;
    m := if n <= len then n else len;
  }

  /** Counted as a session like any other, one whose create stopped after `n` commands
      agrees with all indexes exactly when none or all of them took effect. */
  lemma PartialCreateKeepsExactly(st: Store, s: Session, scored: nat, n: nat)
    requires Inv(st) && NewSessionOk(st, s) && OnTime(st, scored) && s.status != CLOSED
    requires n <= |CreatePipeline(s, scored, st.ttl)|
    ensures Inv(st.(db := CutCreate(st.db, s, scored, st.ttl, n), used := st.used + {s.id}))
        <==> n == 0 || n == |CreatePipeline(s, scored, st.ttl)|
  {
    var st' := st.(db := CutCreate(st.db, s, scored, st.ttl, n), used := st.used + {s.id});
    CutCreateHasView(st, s, scored, n);
    CreatePipelineAt(s, scored, st.ttl);
    if Stage(s, n) == WHOLE {
      CreateViewKeeps(st, s, scored, WHOLE, st'.db);
    } else if n == 0 {
      assert Known(st, s.id) && st'.db == st.db;
      forall j ensures Indexed(st', j) && Known(st', j) && ScoresOwn(st', j) {
        assert Indexed(st, j) && Known(st, j) && ScoresOwn(st, j);
      }
      forall code ensures RoomPointsBack(st', code) { assert RoomPointsBack(st, code); }
      forall user, j ensures ListsOwn(st', user, j) { assert ListsOwn(st, user, j); }
    } else {
      CreateSessions(st, s, scored, Stage(s, n), st'.db, s.id);
      assert ScoresOwn(st, s.id) && !Indexed(st', s.id);
    }
  }

  /** A create with a new id keeps the indexes in agreement exactly when no stored
      session answers to its room code. */
  lemma CreateKeepsExactly(st: Store, s: Session, scored: nat)
    requires Inv(st) && s.id !in st.used && s.createdAt != "" && s.maxCameras != ""
    requires OnTime(st, scored)
    ensures Inv(Step(st, OpCreate(s, scored))) <==> CodeFree(st.db, s.roomCode)
  {
    if CodeFree(st.db, s.roomCode) {
      CreateKeeps(st, s, scored);
    } else {
      CreateHasView(st, s, scored);
      var t, db' := GetByCode(st.db, s.roomCode).value, Create(st.db, s, scored, st.ttl);
      CodeLookupIsFilter(st, s.roomCode, t);
      assert Indexed(st, t.id) && Known(st, t.id) && Get(db', SessionKey(t.id)) == Get(st.db, SessionKey(t.id));
      assert !Indexed(Booked(st, s, WHOLE, db'), t.id);
    }
  }

  /** The check for a free code and the create are separate steps. Two creates that both
      found one code free leave the first session without its code: the code leads to
      the second. */
  lemma RacingCreatesLoseACode(st: Store, a: Session, scored: nat, b: Session, scored': nat)
    requires OnTime(st, scored) && OnTime(st, scored')
    requires Inv(st) && NewSessionOk(st, a) && NewSessionOk(st, b) && a.id != b.id && a.roomCode == b.roomCode != ""
    ensures var st' := Step(Step(st, OpCreate(a, scored)), OpCreate(b, scored'));
            !Inv(st') && Stored(st'.db, a) && Stored(st'.db, b) && GetByCode(st'.db, a.roomCode) == Ok(b)
  {
    var st1 := Step(st, OpCreate(a, scored));
    CreateKeeps(st, a, scored);
    CreateIsStored(st, a, scored, a.id);
    CodeLookupIsFilter(st1, a.roomCode, a);
    CreateKeepsExactly(st1, b, scored');
    CreateIsStored(st1, b, scored', a.id);
  }

  lemma CreateIsStored(st: Store, s: Session, scored: nat, id: string)
    requires Inv(st) && s.id !in st.used && s.createdAt != "" && s.maxCameras != ""
    ensures var db' := Create(st.db, s, scored, st.ttl);
            && db'.now == st.db.now && Stored(db', s) && (id != s.id ==> GetSession(db', id) == GetSession(st.db, id))
            && (s.roomCode != "" ==> GetByCode(db', s.roomCode) == Ok(s))
  {
    var db' := Create(st.db, s, scored, st.ttl);
    CreateHasView(st, s, scored);
    CreateSessions(st, s, scored, WHOLE, db', s.id);
    CreateSessions(st, s, scored, WHOLE, db', id);
  }

  /** The record under `id` has its status replaced; nothing else changes but,
      when `dropped`, the id's place in the active set. */
  ghost predicate StatusView(db: Db, id: string, status: string, dropped: bool, db': Db) {
    && Get(db, SessionKey(id)).Some?
    && db'.now == db.now
    && GetSession(db, id).Ok?
    && GetSession(db', id) == Ok(GetSession(db, id).value.(status := status))
    && Get(db', SessionKey(id)).Some? && Get(db', SessionKey(id)).value.expiry == Get(db, SessionKey(id)).value.expiry
    && ActiveScores(db') == (if dropped then ActiveScores(db) - {id} else ActiveScores(db))
    && (forall k :: k != SessionKey(id) && k != ActiveKey ==> Get(db', k) == Get(db, k))
    && (Get(db', ActiveKey).Some? ==> Get(db, ActiveKey).Some? && Typed(ActiveKey, Get(db', ActiveKey).value))
  }

  lemma SetStatusHasView(db: Db, id: string, status: string)
    requires Get(db, SessionKey(id)).Some? && GetSession(db, id).Ok? && Sound(db, ActiveKey)
    ensures StatusView(db, id, status, false, SetStatus(db, id, status))
  {
    var h := db.entries[SessionKey(id)].value.fields;
    assert FStatus in h + map[FStatus := status];
  }

  lemma CloseHasView(db: Db, id: string)
    requires Get(db, SessionKey(id)).Some? && GetSession(db, id).Ok? && Sound(db, ActiveKey)
    ensures StatusView(db, id, CLOSED, true, Update(db, id, CLOSED))
  {
    SetStatusHasView(db, id, CLOSED);
    var sc := ActiveScores(db);
    assert sc == map[] ==> sc - {id} == map[];
  }

  lemma StatusIndexed(st: Store, id: string, status: string, dropped: bool, db': Db, j: string)
    requires Inv(st) && StatusView(st.db, id, status, dropped, db')
    requires status == CLOSED || (!dropped && (id in ActiveScores(st.db) || id in st.cut))
    ensures Indexed(st.(db := db'), j) && Known(st.(db := db'), j)
  {
    assert Indexed(st, j) && Known(st, j);
    if id in st.cut { assert st.cut[id] < WHOLE; }
  }

  lemma StatusViewKeeps(st: Store, id: string, status: string, dropped: bool, db': Db)
    requires Inv(st) && StatusView(st.db, id, status, dropped, db')
    requires status == CLOSED || (!dropped && (id in ActiveScores(st.db) || id in st.cut))
    ensures Inv(st.(db := db'))
  {
    var db := st.db;
    forall k ensures Sound(db', k) { assert Sound(db, k); }
    forall j ensures Indexed(st.(db := db'), j) && Known(st.(db := db'), j) {
      StatusIndexed(st, id, status, dropped, db', j);
    }
    BackPointersKeep(st, db');
  }

  /** A status update changes the status of that session only, and a closed session also
      leaves the active set; without a record it changes nothing. */
  lemma UpdateSetsStatus(st: Store, id: string, status: string)
    requires Inv(st)
    ensures var db' := Update(st.db, id, status);
            && (forall j :: j != id ==> GetSession(db', j) == GetSession(st.db, j))
            && (GetSession(st.db, id).Ok? ==> GetSession(db', id) == Ok(GetSession(st.db, id).value.(status := status)))
            && (GetSession(st.db, id).Err? ==> db' == st.db)
            && (ActiveScores(db') == if GetSession(st.db, id).Ok? && status == CLOSED then ActiveScores(st.db) - {id}
                                     else ActiveScores(st.db))
  {
    assert Indexed(st, id) && Sound(st.db, ActiveKey);
    if GetSession(st.db, id).Ok? {
      SetStatusHasView(st.db, id, status);
      if status == CLOSED { CloseHasView(st.db, id); }
    }
  }

  lemma UpdateKeeps(st: Store, id: string, status: string)
    requires Inv(st) && Allowed(st, OpUpdate(id, status))
    ensures Inv(Step(st, OpUpdate(id, status)))
  {
    assert Indexed(st, id) && Sound(st.db, ActiveKey);
    if Get(st.db, SessionKey(id)).Some? {
      if status == CLOSED {
        CloseHasView(st.db, id);
        StatusViewKeeps(st, id, status, true, Update(st.db, id, status));
      } else {
        SetStatusHasView(st.db, id, status);
        StatusViewKeeps(st, id, status, false, Update(st.db, id, status));
      }
    }
  }

  /** What a delete leaves in the key space after its first `n` commands. */
  ghost predicate DeleteView(db: Db, id: string, s: Session, n: nat, db': Db) {
    && db'.now == db.now
    && (n > 0 ==> Get(db', SessionKey(id)).None?)
    && (Get(db', AccessKey(id)) == Get(db, AccessKey(id)) || Get(db', AccessKey(id)).None?)
    && MembersAt(db', UserKey(s.createdBy)) == MembersAt(db, UserKey(s.createdBy)) - (if n >= 3 then {id} else {})
    && ActiveScores(db') == ActiveScores(db) - (if n >= 4 then {id} else {})
    && Get(db', RoomKey(s.roomCode)) == (if s.roomCode != "" && n >= 5 then None else Get(db, RoomKey(s.roomCode)))
    && (forall k :: k != SessionKey(id) && k != AccessKey(id) && k != UserKey(s.createdBy) && k != ActiveKey
                    && k != RoomKey(s.roomCode)
         ==> Get(db', k) == Get(db, k))
    && Shrinks(Get(db, UserKey(s.createdBy)), Get(db', UserKey(s.createdBy)))
    && Shrinks(Get(db, ActiveKey), Get(db', ActiveKey))
  }

  /** A collection that only lost elements: same type, same expiry, gone if empty. */
  predicate Shrinks(e: Option<Entry>, e': Option<Entry>) {
    e'.Some? ==> e.Some? && e'.value.expiry == e.value.expiry
                 && (e.value.value.Members? ==> e'.value.value.Members?)
                 && (e.value.value.Scores? ==> e'.value.value.Scores?)
  }

  lemma RemovedMember(e: Option<Entry>, id: string, now: nat)
    ensures MembersIn(Effect(SRem(id), e, now)) == MembersIn(e) - {id} && Shrinks(e, Effect(SRem(id), e, now))
    ensures ScoresIn(Effect(ZRem(id), e, now)) == ScoresIn(e) - {id} && Shrinks(e, Effect(ZRem(id), e, now))
  {
    var sc := ScoresIn(e);
    assert sc == map[] ==> sc - {id} == map[];
  }

  lemma DropsAreView(db: Db, id: string, s: Session, n: nat, db': Db)
    requires db'.now == db.now && forall k :: Get(db', k) == DropEntry(db, s, id, n, k)
    ensures DeleteView(db, id, s, n, db')
  {
    RemovedMember(Get(db, UserKey(s.createdBy)), id, db.now);
    RemovedMember(Get(db, ActiveKey), id, db.now);
    var sc := ActiveScores(db);
    assert sc - {} == sc;
  }

  lemma CutDeleteHasView(db: Db, id: string, n: nat)
    requires GetSession(db, id).Ok?
    ensures DeleteView(db, id, GetSession(db, id).value, n, CutDelete(db, id, n))
  {
    var s, db' := GetSession(db, id).value, CutDelete(db, id, n);
    var p := DeletePipeline(s, id);
    DeletePipelineAt(s, id);
    var m := if n <= |p| then n else |p|;
    forall k ensures db'.now == db.now && Get(db', k) == DropEntry(db, s, id, n, k) {
      CutDeleteClosedForm(db, s, id, m, k);
    }
    assert Get(db', ActiveKey) == DropEntry(db, s, id, n, ActiveKey);
    DropsAreView(db, id, s, n, db');
  }

  lemma DeleteIsWhole(db: Db, id: string)
    ensures Delete(db, id) == CutDelete(db, id, 5)
  {
    if GetSession(db, id).Ok? {
      var p := DeletePipeline(GetSession(db, id).value, id);
      DeletePipelineAt(GetSession(db, id).value, id);
      assert p[..|p|] == p;
    }
  }

  lemma DeleteKeepsListing(db: Db, id: string, s: Session, n: nat, db': Db, user: string, j: string, x: Expiry)
    requires DeleteView(db, id, s, n, db') && j != id && ListedForUser(Get(db, UserKey(user)), j, x)
    ensures ListedForUser(Get(db', UserKey(user)), j, x)
  {
    if user == s.createdBy { assert j in MembersAt(db', UserKey(user)); }
  }

  lemma DeleteKeepsLinks(st: Store, id: string, s: Session, n: nat, db': Db, t: Session)
    requires Inv(st) && Allowed(st, OpCutDelete(id, n))
    requires GetSession(st.db, id) == Ok(s) && DeleteView(st.db, id, s, n, db')
    requires Stored(st.db, t) && Indexed(st, t.id) && t.id != id
    requires Get(db', SessionKey(t.id)) == Get(st.db, SessionKey(t.id))
    ensures Indexed(st.(db := db'), t.id)
  {
    var x := Get(st.db, SessionKey(t.id)).value.expiry;
    if StageOf(st, t.id) >= CODE_WRITTEN && t.roomCode != "" {
      CodeLookupIsFilter(st, t.roomCode, t);
      assert Get(db', RoomKey(t.roomCode)) == Get(st.db, RoomKey(t.roomCode));
    }
    if StageOf(st, t.id) >= LISTED { DeleteKeepsListing(st.db, id, s, n, db', t.createdBy, t.id, x); }
    StillIndexed(st, st.(db := db'), t);
  }

  lemma DeleteIndexed(st: Store, id: string, s: Session, n: nat, db': Db, j: string)
    requires Inv(st) && Allowed(st, OpCutDelete(id, n)) && n > 0
    requires GetSession(st.db, id) == Ok(s) && DeleteView(st.db, id, s, n, db')
    ensures Indexed(st.(db := db'), j) && Known(st.(db := db'), j)
  {
    assert Indexed(st, j) && Known(st, j);
    if j != id && Get(st.db, SessionKey(j)).Some? {
      assert Get(db', SessionKey(j)) == Get(st.db, SessionKey(j));
      DeleteKeepsLinks(st, id, s, n, db', GetSession(st.db, j).value);
    }
  }

  lemma DeleteLoses(db: Db, id: string, s: Session, n: nat, db': Db)
    requires GetSession(db, id) == Ok(s) && DeleteView(db, id, s, n, db') && n > 0
    ensures OnlyLoses(db, db')
  {
    forall j ensures j == id || Get(db', SessionKey(j)) == Get(db, SessionKey(j)) {}
    forall user ensures user == s.createdBy || Get(db', UserKey(user)) == Get(db, UserKey(user)) {}
  }

  lemma DeleteViewKeeps(st: Store, id: string, s: Session, n: nat, db': Db)
    requires Inv(st) && Allowed(st, OpCutDelete(id, n)) && n > 0
    requires GetSession(st.db, id) == Ok(s) && DeleteView(st.db, id, s, n, db')
    ensures Inv(st.(db := db'))
  {
    forall k ensures Sound(db', k) { assert Sound(st.db, k); }
    forall j ensures Indexed(st.(db := db'), j) && Known(st.(db := db'), j) { DeleteIndexed(st, id, s, n, db', j); }
    DeleteLoses(st.db, id, s, n, db');
    BackPointersKeep(st, db');
  }

  /** The record goes first, so a delete that stops on the way leaves nothing amiss. */
  lemma CutDeleteKeeps(st: Store, id: string, n: nat)
    requires Inv(st) && Allowed(st, OpCutDelete(id, n))
    ensures Inv(Step(st, OpCutDelete(id, n)))
  {
    if GetSession(st.db, id).Ok? && n > 0 {
      CutDeleteHasView(st.db, id, n);
      DeleteViewKeeps(st, id, GetSession(st.db, id).value, n, CutDelete(st.db, id, n));
    }
  }

  lemma DeleteKeeps(st: Store, id: string)
    requires Inv(st) && Allowed(st, OpDelete(id))
    ensures Inv(Step(st, OpDelete(id)))
  {
    DeleteIsWhole(st.db, id);
    CutDeleteKeeps(st, id, 5);
  }

  /** Deleting a stored session removes its record, its access hash, its code and its place
      in its creator's set and in the active set, and leaves its ingress set and every
      other session's record, access and ingresses; an unknown id changes nothing. */
  lemma DeleteRemovesTheSession(st: Store, id: string)
    requires Inv(st)
    ensures var db, db' := st.db, Delete(st.db, id);
            && (GetSession(db, id).Err? ==> db' == db)
            && (GetSession(db, id).Ok? ==>
                  var s := GetSession(db, id).value;
                  && Get(db', SessionKey(id)).None? && Get(db', AccessKey(id)).None?
                  && (s.roomCode != "" ==> GetByCode(db', s.roomCode) == Err(InvalidRoomCode))
                  && MembersAt(db', UserKey(s.createdBy)) == MembersAt(db, UserKey(s.createdBy)) - {id}
                  && ActiveScores(db') == ActiveScores(db) - {id})
            && (forall j :: Get(db', IngressKey(j)) == Get(db, IngressKey(j)))
            && (forall j :: j != id ==> Get(db', SessionKey(j)) == Get(db, SessionKey(j))
                                        && Get(db', AccessKey(j)) == Get(db, AccessKey(j)))
  {
    if GetSession(st.db, id).Ok? {
      CutDeleteHasView(st.db, id, 5);
      DeleteIsWhole(st.db, id);
      DeleteClosedForm(st.db, GetSession(st.db, id).value, id, AccessKey(id));
    }
  }

  /** A delete, whole or not, keeps the indexes in agreement exactly when it stops before
      the room code or the code leads to no other session. It always does when every
      create was whole; after one that was cut short before its code was written, the
      code may since belong to another session, and the delete takes it away. */
  lemma DeleteKeepsExactly(st: Store, id: string, n: nat)
    requires Inv(st)
    ensures Inv(Step(st, OpCutDelete(id, n))) <==> n < 5 || CodeIsOwn(st.db, id)
    ensures Inv(Step(st, OpDelete(id))) <==> CodeIsOwn(st.db, id)
    ensures StageOf(st, id) >= CODE_WRITTEN ==> CodeIsOwn(st.db, id)
  {
    assert Indexed(st, id);
    DeleteIsWhole(st.db, id);
    if CodeIsOwn(st.db, id) {
      CutDeleteKeeps(st, id, n);
      DeleteKeeps(st, id);
    } else {
      ForeignCodeBreaks(st, id, 5);
      if n < 5 { CutDeleteKeeps(st, id, n); } else { ForeignCodeBreaks(st, id, n); }
    }
  }

  lemma ForeignCodeBreaks(st: Store, id: string, n: nat)
    requires Inv(st) && !CodeIsOwn(st.db, id) && n >= 5
    ensures !Inv(Step(st, OpCutDelete(id, n)))
  {
    var code := GetSession(st.db, id).value.roomCode;
    var t, st' := GetByCode(st.db, code).value, Step(st, OpCutDelete(id, n));
    CodeLookupIsFilter(st, code, t);
    CutDeleteHasView(st.db, id, n);
    assert Indexed(st, t.id) && Get(st'.db, SessionKey(t.id)) == Get(st.db, SessionKey(t.id));
    assert !Indexed(st', t.id);
  }

  lemma CutLeavesCodeFree(st: Store, a: Session, scored: nat, n: nat)
    requires Inv(st) && OnTime(st, scored) && NewSessionOk(st, a) && a.roomCode != "" && 0 < n < CODE_WRITTEN
    ensures var st1 := Step(st, OpCutCreate(a, scored, n));
            && Inv(st1) && Stored(st1.db, a) && CodeFree(st1.db, a.roomCode)
            && st1.used == st.used + {a.id} && st1.db.now == st.db.now
  {
    var st1 := Step(st, OpCutCreate(a, scored, n));
    CutCreateKeeps(st, a, scored, n);
    CreatePipelineAt(a, scored, st.ttl);
    CutCreateHasView(st, a, scored, n);
    CreateSessions(st, a, scored, n, st1.db, a.id);
    if GetByCode(st1.db, a.roomCode).Ok? {
      CodeLookupIsFilter(st1, a.roomCode, GetByCode(st1.db, a.roomCode).value);
      var t := GetByCode(st1.db, a.roomCode).value;
      CreateSessions(st, a, scored, n, st1.db, t.id);
      CodeLookupIsFilter(st, a.roomCode, t);
    }
  }

  /** This does happen: a create is cut short before its code is written, a later create
      is given the same code, and deleting the first takes the code from the second. */
  lemma DeleteTakesAnothersCode(st: Store, a: Session, scored: nat, b: Session, scored': nat, n: nat)
    requires OnTime(st, scored) && OnTime(st, scored')
    requires Inv(st) && NewSessionOk(st, a) && NewSessionOk(st, b) && a.id != b.id && a.roomCode == b.roomCode != ""
    requires 0 < n < CODE_WRITTEN
    ensures var st2 := Step(Step(st, OpCutCreate(a, scored, n)), OpCreate(b, scored'));
            Inv(st2) && Stored(st2.db, b) && !Inv(Step(st2, OpDelete(a.id)))
  {
    var st1 := Step(st, OpCutCreate(a, scored, n));
    CutLeavesCodeFree(st, a, scored, n);
    CreateKeeps(st1, b, scored');
    CreateIsStored(st1, b, scored', a.id);
    DeleteKeepsExactly(Step(st1, OpCreate(b, scored')), a.id, 5);
  }

  lemma PrunedMembers(db: Db, user: string, spared: set<string>)
    ensures var ms := MembersAt(db, UserKey(user));
            MembersAt(PruneUser(db, user, spared), UserKey(user))
            == set id | id in ms && (id in spared || GetSession(db, id) != Err(SessionNotFound))
    ensures Shrinks(Get(db, UserKey(user)), Get(PruneUser(db, user, spared), UserKey(user)))
    ensures PruneUser(db, user, spared).now == db.now
    ensures forall k :: k != UserKey(user) ==> Get(PruneUser(db, user, spared), k) == Get(db, k)
  {
  }

  /** A user's set loses only ids without a record. */
  lemma ListUserKeeps(st: Store, user: string, spared: set<string>)
    requires Inv(st)
    ensures Inv(Step(st, OpListUser(user, spared)))
  {
    var db, db' := st.db, PruneUser(st.db, user, spared);
    PrunedMembers(db, user, spared);
    forall k ensures Sound(db', k) { assert Sound(db, k); }
    forall j ensures Indexed(st.(db := db'), j) && Known(st.(db := db'), j) {
      assert Indexed(st, j) && Known(st, j);
      assert Get(db', SessionKey(j)) == Get(db, SessionKey(j));
    }
    BackPointersKeep(st, db');
  }

  lemma PrunedScores(db: Db, nowSec: int, spared: set<string>)
    ensures var sc := ActiveScores(db);
            ActiveScores(PruneActive(db, nowSec, spared))
            == sc - (set id | id in sc && sc[id] <= nowSec && IsClosed(db, id) && id !in spared)
    ensures forall id :: id in DueIds(PruneActive(db, nowSec, spared), nowSec) <==>
              id in DueIds(db, nowSec) && (!IsClosed(db, id) || id in spared)
    ensures Shrinks(Get(db, ActiveKey), Get(PruneActive(db, nowSec, spared), ActiveKey))
    ensures PruneActive(db, nowSec, spared).now == db.now
    ensures forall k :: k != ActiveKey ==> Get(PruneActive(db, nowSec, spared), k) == Get(db, k)
  {
    var sc := ActiveScores(db);
    assert sc - {} == sc;
  }

  /** The active set loses only ids that are closed or gone. */
  lemma FewerScoresKeep(st: Store, db': Db)
    requires Inv(st) && db'.now == st.db.now && Shrinks(Get(st.db, ActiveKey), Get(db', ActiveKey))
    requires forall k :: k != ActiveKey ==> Get(db', k) == Get(st.db, k)
    requires forall id :: id in ActiveScores(db') ==>
               id in ActiveScores(st.db) && ActiveScores(db')[id] == ActiveScores(st.db)[id]
    requires forall id :: id in ActiveScores(st.db) && IsOpen(st.db, id) ==> id in ActiveScores(db')
    ensures Inv(st.(db := db'))
  {
    var db := st.db;
    forall k ensures Sound(db', k) { assert Sound(db, k); }
    forall j ensures Indexed(st.(db := db'), j) && Known(st.(db := db'), j) { assert Indexed(st, j) && Known(st, j); }
    BackPointersKeep(st, db');
  }

  lemma ListExpiredKeeps(st: Store, nowSec: int, spared: set<string>)
    requires Inv(st)
    ensures Inv(Step(st, OpListExpired(nowSec, spared)))
  {
    PrunedScores(st.db, nowSec, spared);
    FewerScoresKeep(st, PruneActive(st.db, nowSec, spared));
  }

  /** A change under one access or ingress key does not touch the indexes. */
  lemma SideEntryKeeps(st: Store, k0: Key, e: Option<Entry>)
    requires Inv(st) && (k0.AccessKey? || k0.IngressKey?)
    requires e.Some? ==> Typed(k0, e.value) && Alive(e.value, st.db.now)
    ensures Inv(st.(db := Space(Put(st.db.entries, k0, e), st.db.now)))
  {
    var db, db' := st.db, Space(Put(st.db.entries, k0, e), st.db.now);
    forall k | k != k0 ensures Get(db', k) == Get(db, k) {}
    forall k ensures Sound(db', k) { assert Sound(db, k); }
    forall j ensures Indexed(st.(db := db'), j) && Known(st.(db := db'), j) { assert Indexed(st, j) && Known(st, j); }
    BackPointersKeep(st, db');
  }

  lemma SideStepKeeps(st: Store, op: Op)
    requires Inv(st) && (op.OpGrant? || op.OpRevoke? || op.OpAddIngress?)
    ensures Inv(Step(st, op))
  {
    var db := st.db;
    match op
    case OpGrant(id, user, role) =>
      RunSameKey(db, AccessKey(id), HSetRole(user, role), Expire(1000 * st.ttl));
      assert Sound(db, AccessKey(id));
      SideEntryKeeps(st, AccessKey(id),
        Effect(Expire(1000 * st.ttl), Effect(HSetRole(user, role), Get(db, AccessKey(id)), db.now), db.now));
    case OpRevoke(id, user) =>
      assert Sound(db, AccessKey(id));
      SideEntryKeeps(st, AccessKey(id), Effect(HDelRole(user), Get(db, AccessKey(id)), db.now));
    case OpAddIngress(id, ingress) =>
      RunSameKey(db, IngressKey(id), SAdd(ingress), Expire(1000 * st.ttl));
      assert Sound(db, IngressKey(id));
      SideEntryKeeps(st, IngressKey(id),
        Effect(Expire(1000 * st.ttl), Effect(SAdd(ingress), Get(db, IngressKey(id)), db.now), db.now));
  }

  lemma TickKeeps(st: Store, t: nat)
    requires Inv(st)
    ensures Inv(Step(st, OpTick(t)))
  {
    var db, db' := st.db, Advance(st.db, t);
    forall k ensures Get(db', k) == Get(db, k) || (Get(db', k).None? && !Alive(Get(db, k).value, t)) {}
    assert Sound(db, ActiveKey);
    forall k ensures Sound(db', k) { assert Sound(db, k); }
    forall j ensures Indexed(st.(db := db'), j) && Known(st.(db := db'), j) { assert Indexed(st, j) && Known(st, j); }
    BackPointersKeep(st, db');
  }

  // ---- whole runs ----

  lemma StepKeeps(st: Store, op: Op)
    requires Inv(st) && Allowed(st, op)
    ensures Inv(Step(st, op))
  {
    match op
    case OpCreate(s, scored) => CreateKeeps(st, s, scored);
    case OpCutCreate(s, scored, n) => CutCreateKeeps(st, s, scored, n);
    case OpUpdate(id, status) => UpdateKeeps(st, id, status);
    case OpDelete(id) => DeleteKeeps(st, id);
    case OpCutDelete(id, n) => CutDeleteKeeps(st, id, n);
    case OpListUser(user, spared) => ListUserKeeps(st, user, spared);
    case OpListExpired(nowSec, spared) => ListExpiredKeeps(st, nowSec, spared);
    case OpTick(t) => TickKeeps(st, t);
    case _ => SideStepKeeps(st, op);
  }

  function RunOps(st: Store, ops: seq<Op>): Store
    decreases |ops|
  {
    if ops == [] then st else RunOps(Step(st, ops[0]), ops[1..])
  }

  predicate Legal(st: Store, ops: seq<Op>)
    decreases |ops|
  {
    ops == [] || (Allowed(st, ops[0]) && Legal(Step(st, ops[0]), ops[1..]))
  }

  lemma {:induction false} RunKeeps(st: Store, ops: seq<Op>)
    requires Inv(st) && Legal(st, ops)
    ensures Inv(RunOps(st, ops))
    decreases |ops|
  {
    if ops != [] {
      StepKeeps(st, ops[0]);
      RunKeeps(Step(st, ops[0]), ops[1..]);
    }
  }

  function Empty(now: nat, ttl: nat, lag: nat): Store { Store(Space(map[], now), ttl, {}, map[], lag) }

  predicate Stored(db: Db, s: Session) { GetSession(db, s.id) == Ok(s) }

  /** Looking a code up returns exactly the stored session that carries it and whose
      create got as far as writing it; there is at most one. */
  lemma CodeLookupIsFilter(st: Store, code: string, s: Session)
    requires Inv(st) && code != ""
    ensures GetByCode(st.db, code) == Ok(s)
       <==> Stored(st.db, s) && s.roomCode == code && StageOf(st, s.id) >= CODE_WRITTEN
  {
    var db := st.db;
    assert RoomPointsBack(st, code) && Sound(db, RoomKey(code));
    if Stored(db, s) && s.roomCode == code {
      assert Indexed(st, s.id);
    }
    if GetByCode(db, code) == Ok(s) {
      var id := Get(db, RoomKey(code)).value.value.text;
      assert Indexed(st, id);
    }
  }

  /** The ids in a user's set that still have a hash are stored sessions of that user,
      and all of those whose create got as far as listing them. */
  lemma UserLookupIsFilter(st: Store, user: string, s: Session)
    requires Inv(st) && Stored(st.db, s)
    ensures s.id in MembersAt(st.db, UserKey(user)) ==> s.createdBy == user
    ensures StageOf(st, s.id) >= LISTED && s.createdBy == user ==> s.id in MembersAt(st.db, UserKey(user))
  {
    assert Indexed(st, s.id) && ListsOwn(st, user, s.id);
  }

  lemma FoundAsFarAsItGot(st: Store, s: Session, user: string)
    requires Inv(st)
    ensures var db, stage := st.db, StageOf(st, s.id);
            && (Stored(db, s) && s.id in MembersAt(db, UserKey(user)) ==> s.createdBy == user)
            && (Stored(db, s) && stage >= LISTED ==> s.id in MembersAt(db, UserKey(s.createdBy)))
            && (Stored(db, s) && s.status != CLOSED ==> (s.id in ActiveScores(db) <==> stage == WHOLE))
  {
    if Stored(st.db, s) {
      UserLookupIsFilter(st, user, s);
      UserLookupIsFilter(st, s.createdBy, s);
      assert Indexed(st, s.id) && ScoresOwn(st, s.id);
    }
  }

  lemma EverythingReads(st: Store)
    requires Inv(st)
    ensures forall id :: GetSession(st.db, id).Ok? || GetSession(st.db, id) == Err(SessionNotFound)
    ensures forall k :: Get(st.db, k).Some? ==> Typed(k, Get(st.db, k).value)
  {
    forall id ensures GetSession(st.db, id).Ok? || GetSession(st.db, id) == Err(SessionNotFound) {
      assert Indexed(st, id);
    }
    forall k | Get(st.db, k).Some? ensures Typed(k, Get(st.db, k).value) { assert Sound(st.db, k); }
  }

  predicate CutsShort(op: Op) { op.OpCutCreate? }

  /** Without creates that are cut short every session is whole. */
  lemma {:induction false} NothingCut(st: Store, ops: seq<Op>)
    requires forall i :: 0 <= i < |ops| ==> !CutsShort(ops[i])
    ensures RunOps(st, ops).cut == st.cut
    decreases |ops|
  {
    if ops != [] {
      assert !CutsShort(ops[0]);
      NothingCut(Step(st, ops[0]), ops[1..]);
    }
  }

  /** Every run of allowed operations and clock ticks from an empty store, creates that are
      cut short included: each stored session is found by its code and by its creator and
      by nothing else, as far as its create got; it is in the active set if it is whole
      and not closed; no read fails on a damaged record, and no command meets a value of
      the wrong type. When no create is cut short every session is whole. */
  lemma RunsKeepIndexesInAgreement(now: nat, ttl: nat, lag: nat, ops: seq<Op>, s: Session, code: string, user: string)
    requires ttl > 0 && Legal(Empty(now, ttl, lag), ops) && code != ""
    ensures var st := RunOps(Empty(now, ttl, lag), ops);
            var db, stage := st.db, StageOf(st, s.id);
            && (GetByCode(db, code) == Ok(s) <==> Stored(db, s) && s.roomCode == code && stage >= CODE_WRITTEN)
            && (Stored(db, s) && s.id in MembersAt(db, UserKey(user)) ==> s.createdBy == user)
            && (Stored(db, s) && stage >= LISTED ==> s.id in MembersAt(db, UserKey(s.createdBy)))
            && (Stored(db, s) && s.status != CLOSED ==> (s.id in ActiveScores(db) <==> stage == WHOLE))
            && (forall id :: GetSession(db, id).Ok? || GetSession(db, id) == Err(SessionNotFound))
            && (forall k :: Get(db, k).Some? ==> Typed(k, Get(db, k).value))
            && ((forall i :: 0 <= i < |ops| ==> !CutsShort(ops[i])) ==> stage == WHOLE)
  {
    RunKeeps(Empty(now, ttl, lag), ops);
    var st := RunOps(Empty(now, ttl, lag), ops);
    CodeLookupIsFilter(st, code, s);
    FoundAsFarAsItGot(st, s, user);
    EverythingReads(st);
    if forall i :: 0 <= i < |ops| ==> !CutsShort(ops[i]) { NothingCut(Empty(now, ttl, lag), ops); }
  }

  /** An update keeps the indexes in agreement exactly when it closes the session, or the
      session is still in the active set, or its create never put it there. */
  lemma UpdateKeepsExactly(st: Store, id: string, status: string)
    requires Inv(st) && Get(st.db, SessionKey(id)).Some?
    ensures Inv(Step(st, OpUpdate(id, status))) <==> status == CLOSED || id in ActiveScores(st.db) || id in st.cut
  {
    if status == CLOSED || id in ActiveScores(st.db) || id in st.cut {
      UpdateKeeps(st, id, status);
    } else {
      assert Indexed(st, id) && Sound(st.db, ActiveKey);
      SetStatusHasView(st.db, id, status);
      assert !Indexed(Step(st, OpUpdate(id, status)), id);
    }
  }

  /** So closing a whole session and then giving it any other status leaves a session
      that is not closed and not in the active set. */
  lemma ReopeningLosesTheActiveEntry(st: Store, id: string, status: string)
    requires Inv(st) && Get(st.db, SessionKey(id)).Some? && id !in st.cut && status != CLOSED
    ensures !Inv(Step(Step(st, OpUpdate(id, CLOSED)), OpUpdate(id, status)))
  {
    var st' := Step(st, OpUpdate(id, CLOSED));
    UpdateKeeps(st, id, CLOSED);
    assert Indexed(st, id) && Sound(st.db, ActiveKey);
    CloseHasView(st.db, id);
    UpdateKeepsExactly(st', id, status);
  }

  /** A status written where there is no hash makes a record that holds only a status,
      never expires and cannot be read. */
  lemma StatusAloneIsUnreadable(st: Store, id: string)
    requires Get(st.db, SessionKey(id)).None?
    ensures var late := SetStatus(st.db, id, CLOSED);
            !Inv(st.(db := late)) && forall later: nat :: GetSession(Advance(late, later), id) == Err(BadRecord)
  {
    var late := SetStatus(st.db, id, CLOSED);
    var e := Entry(Record(map[FStatus := CLOSED]), Never);
    assert FStatus in e.value.fields;
    assert Get(late, SessionKey(id)) == Some(e);
    assert !Indexed(st.(db := late), id);
    forall later: nat ensures GetSession(Advance(late, later), id) == Err(BadRecord) {
      assert Get(Advance(late, later), SessionKey(id)) == Some(e);
    }
  }

  lemma StatusOfPresentKeeps(st: Store, id: string)
    requires Inv(st) && Get(st.db, SessionKey(id)).Some?
    ensures Inv(st.(db := SetStatus(st.db, id, CLOSED)))
  {
    assert Indexed(st, id) && Sound(st.db, ActiveKey);
    SetStatusHasView(st.db, id, CLOSED);
    StatusViewKeeps(st, id, CLOSED, false, SetStatus(st.db, id, CLOSED));
  }

  /** UpdateSessionStatus tests for the hash and writes the status in two round
      trips. When the clock moves to `t` in between, the write is harmless exactly
      when the hash is still there; otherwise it creates a record that holds only a
      status, never expires and cannot be read. */
  lemma StatusWriteAfterExpiry(st: Store, id: string, t: nat)
    requires Inv(st) && Get(st.db, SessionKey(id)).Some? && st.db.now <= t
    ensures var db := Advance(st.db, t);
            var late := SetStatus(db, id, CLOSED);
            && (Inv(st.(db := late)) <==> Alive(st.db.entries[SessionKey(id)], t))
            && (!Inv(st.(db := late)) ==>
                  forall later: nat :: GetSession(Advance(late, later), id) == Err(BadRecord))
  {
    var st' := Step(st, OpTick(t));
    TickKeeps(st, t);
    if Alive(st.db.entries[SessionKey(id)], t) {
      StatusOfPresentKeeps(st', id);
    } else {
      StatusAloneIsUnreadable(st', id);
    }
  }
}
