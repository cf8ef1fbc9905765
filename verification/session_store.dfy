/**
 The Redis-backed session store: one session hash per session and five derived
 structures (room code to id, the creator's id set, the active sorted set, the
 access hash, the ingress set).

 The functions give the effect of every operation on the key space; the class
 performs them command by command.
 */
module SessionStore {
  import opened Common
  import opened Redis
  import opened Keys

  type Db = Space<Key>

  /** `createdAt` and `maxCameras` are the stored texts; a text parses when it is
      not empty. */
  datatype Session = Session(id: string, roomCode: string, createdBy: string,
                             createdAt: string, maxCameras: string, status: string)

  datatype Error =
    | SessionNotFound | InvalidRoomCode | BadRecord | WrongType | Unavailable
    | NoFreeCode | NoRandomness | BadBackoff

  datatype Result<+T> = Ok(value: T) | Err(error: Error)

  const CLOSED := "closed"

  function Encode(s: Session): map<Field, string> {
    map[FId := s.id, FRoomCode := s.roomCode, FCreatedBy := s.createdBy,
        FCreatedAt := s.createdAt, FMaxCameras := s.maxCameras, FStatus := s.status]
  }

  /** A missing field reads as the empty text. */
  function FieldText(h: map<Field, string>, f: Field): string {
    if f in h then h[f] else ""
  }

  function Decode(h: map<Field, string>): Result<Session> {
    if h == map[] then Err(SessionNotFound)
    else if FieldText(h, FCreatedAt) == "" || FieldText(h, FMaxCameras) == "" then Err(BadRecord)
    else Ok(Session(FieldText(h, FId), FieldText(h, FRoomCode), FieldText(h, FCreatedBy),
                    FieldText(h, FCreatedAt), FieldText(h, FMaxCameras), FieldText(h, FStatus)))
  }

  /** Reading back what was stored gives the session, if and only if both texts parse. */
  lemma DecodeEncode(s: Session)
    ensures Decode(Encode(s)) == if s.createdAt != "" && s.maxCameras != "" then Ok(s) else Err(BadRecord)
  {
    assert FId in Encode(s);
  }

  // ---- reads ----

  function SessionIn(e: Option<Entry>): Result<Session> {
    match e
    case None => Err(SessionNotFound)
    case Some(Entry(Record(h), _)) => Decode(h)
    case _ => Err(WrongType)
  }

  function MembersIn(e: Option<Entry>): set<string> {
    match e
    case Some(Entry(Members(ms), _)) => ms
    case _ => {}
  }

  function ScoresIn(e: Option<Entry>): map<string, int> {
    match e
    case Some(Entry(Scores(sc), _)) => sc
    case _ => map[]
  }

  function GetSession(db: Db, id: string): Result<Session> {
    SessionIn(Get(db, SessionKey(id)))
  }

  function GetByCode(db: Db, code: string): Result<Session> {
    match Get(db, RoomKey(code))
    case None => Err(InvalidRoomCode)
    case Some(Entry(Text(id), _)) => GetSession(db, id)
    case _ => Err(WrongType)
  }

  function MembersAt(db: Db, k: Key): set<string> { MembersIn(Get(db, k)) }

  function ActiveScores(db: Db): map<string, int> { ScoresIn(Get(db, ActiveKey)) }

  predicate IsClosed(db: Db, id: string) {
    GetSession(db, id).Ok? && GetSession(db, id).value.status == CLOSED
  }

  predicate IsOpen(db: Db, id: string) {
    GetSession(db, id).Ok? && GetSession(db, id).value.status != CLOSED
  }

  // ---- writes ----

  /** The score is the Unix second at which a lifetime that starts at `scored` ends. The
      server reads `scored` off its clock while it builds the pipeline; the lifetimes in
      Redis start when the commands arrive. */
  function Score(scored: nat, ttl: nat): int { (scored + 1000 * ttl) / 1000 }

  function RecordCommands(s: Session, ttl: nat): seq<Command<Key>> {
    [Command(SessionKey(s.id), HSetRecord(Encode(s))), Command(SessionKey(s.id), Expire(1000 * ttl))]
  }

  function RoomCommands(s: Session, ttl: nat): seq<Command<Key>> {
    if s.roomCode == "" then [] else [Command(RoomKey(s.roomCode), SetText(s.id, 1000 * ttl))]
  }

  function UserCommands(s: Session, ttl: nat): seq<Command<Key>> {
    [Command(UserKey(s.createdBy), SAdd(s.id)), Command(UserKey(s.createdBy), Expire(1000 * ttl))]
  }

  function ActiveCommands(s: Session, scored: nat, ttl: nat): seq<Command<Key>> {
    [Command(ActiveKey, ZAdd(s.id, Score(scored, ttl)))]
  }

  function CreatePipeline(s: Session, scored: nat, ttl: nat): seq<Command<Key>> {
    RecordCommands(s, ttl) + RoomCommands(s, ttl) + UserCommands(s, ttl) + ActiveCommands(s, scored, ttl)
  }

  function DropRecord(id: string): seq<Command<Key>> {
    [Command(SessionKey(id), Del), Command(AccessKey(id), Del)]
  }

  function DropIndexes(s: Session, id: string): seq<Command<Key>> {
    [Command(UserKey(s.createdBy), SRem(id)), Command(ActiveKey, ZRem(id))]
  }

  function DropRoom(s: Session): seq<Command<Key>> {
    if s.roomCode == "" then [] else [Command(RoomKey(s.roomCode), Del)]
  }

  function DeletePipeline(s: Session, id: string): seq<Command<Key>> {
    DropRecord(id) + DropIndexes(s, id) + DropRoom(s)
  }

  function GrantPipeline(id: string, user: string, role: string, ttl: nat): seq<Command<Key>> {
    [Command(AccessKey(id), HSetRole(user, role)), Command(AccessKey(id), Expire(1000 * ttl))]
  }

  function IngressPipeline(id: string, ingress: string, ttl: nat): seq<Command<Key>> {
    [Command(IngressKey(id), SAdd(ingress)), Command(IngressKey(id), Expire(1000 * ttl))]
  }

  function Create(db: Db, s: Session, scored: nat, ttl: nat): Db {
    Run(db, CreatePipeline(s, scored, ttl))
  }

  /** A create of which only the first `n` commands took effect. */
  function CutCreate(db: Db, s: Session, scored: nat, ttl: nat, n: nat): Db {
    var p := CreatePipeline(s, scored, ttl);
    Run(db, p[..if n <= |p| then n else |p|])
  }

  function SetStatus(db: Db, id: string, status: string): Db {
    Exec(db, SessionKey(id), HSetRecord(map[FStatus := status]))
  }

  function DropActive(db: Db, id: string): Db {
    Exec(db, ActiveKey, ZRem(id))
  }

  function Update(db: Db, id: string, status: string): Db {
    if SessionKey(id) !in db.entries then db
    else if status == CLOSED then DropActive(SetStatus(db, id, status), id)
    else SetStatus(db, id, status)
  }

  function Delete(db: Db, id: string): Db {
    match GetSession(db, id)
    case Ok(s) => Run(db, DeletePipeline(s, id))
    case Err(_) => db
  }

  /** A delete of which only the first `n` commands took effect. */
  function CutDelete(db: Db, id: string, n: nat): Db {
    match GetSession(db, id)
    case Ok(s) =>
      var p := DeletePipeline(s, id);
      Run(db, p[..if n <= |p| then n else |p|])
    case Err(_) => db
  }

  function Grant(db: Db, id: string, user: string, role: string, ttl: nat): Db {
    if SessionKey(id) !in db.entries then db else Run(db, GrantPipeline(id, user, role, ttl))
  }

  function AddIngress(db: Db, id: string, ingress: string, ttl: nat): Db {
    Run(db, IngressPipeline(id, ingress, ttl))
  }

  /** Listing a user's sessions drops the ids whose session is gone, except those spared
      because their SREM failed or the listing ended before it reached them. */
  function PruneUser(db: Db, user: string, spared: set<string>): Db {
    match Get(db, UserKey(user))
    case Some(Entry(Members(ms), x)) =>
      var kept := set id | id in ms && (id in spared || GetSession(db, id) != Err(SessionNotFound));
      if kept == ms then db
      else Space(Put(db.entries, UserKey(user), KeepMembers(kept, x)), db.now)
    case _ => db
  }

  /** ZRANGE from -inf to `nowSec` by score. */
  function DueIds(db: Db, nowSec: int): set<string> {
    var sc := ActiveScores(db);
    set id | id in sc && sc[id] <= nowSec
  }

  /** Listing expired sessions drops the due ids that are already closed, except those
      spared because their ZREM failed or the listing ended before it reached them. */
  function PruneActive(db: Db, nowSec: int, spared: set<string>): Db {
    match Get(db, ActiveKey)
    case Some(Entry(Scores(sc), x)) =>
      var closed := set id | id in sc && sc[id] <= nowSec && IsClosed(db, id) && id !in spared;
      if closed == {} then db
      else Space(Put(db.entries, ActiveKey, KeepScores(sc - closed, x)), db.now)
    case _ => db
  }

  // ---- closed forms of the pipelines ----

  lemma RunAppend<K>(s: Space<K>, p: seq<Command<K>>, c: Command<K>)
    ensures Run(s, p + [c]) == Exec(Run(s, p), c.key, c.action)
  {
    assert (p + [c])[..|p|] == p;
  }

  lemma PutTwice<K>(m: map<K, Entry>, k: K, a: Option<Entry>, b: Option<Entry>)
    ensures Put(Put(m, k, a), k, b) == Put(m, k, b)
  {
  }

  lemma RunOne<K>(s: Space<K>, c: Command<K>)
    ensures Run(s, [c]) == Exec(s, c.key, c.action)
  {
    RunAppend(s, [], c);
    assert [] + [c] == [c];
  }

  lemma RunSameKey(db: Db, k: Key, a: Action, b: Action)
    ensures Run(db, [Command(k, a), Command(k, b)])
            == Space(Put(db.entries, k, Effect(b, Effect(a, Get(db, k), db.now), db.now)), db.now)
  {
    RunOne(db, Command(k, a));
    RunAppend(db, [Command(k, a)], Command(k, b));
    assert [Command(k, a)] + [Command(k, b)] == [Command(k, a), Command(k, b)];
    var e1 := Effect(a, Get(db, k), db.now);
    assert Get(Exec(db, k, a), k) == e1;
    PutTwice(db.entries, k, e1, Effect(b, e1, db.now));
  }

  /** Two key spaces that hold the same at the same time. */
  predicate SameAt(x: Db, y: Db, k: Key) { Get(x, k) == Get(y, k) }

  lemma SameSpace(x: Db, y: Db)
    requires x.now == y.now && forall k :: SameAt(x, y, k)
    ensures x == y
  {
    forall k ensures k in x.entries <==> k in y.entries { assert SameAt(x, y, k); }
    forall k | k in x.entries ensures x.entries[k] == y.entries[k] { assert SameAt(x, y, k); }
    assert x.entries == y.entries;
  }

  // ---- how far a create has come ----

  const EXPIRES := 2     // the hash has its expiry
  const CODE_WRITTEN := 3
  const LISTED := 5      // the creator's set holds the id and lives long enough
  const WHOLE := 6

  /** The stage reached by the first `n` commands; a missing room code counts as written. */
  function Stage(s: Session, n: nat): nat {
    var m := if s.roomCode == "" && n >= 2 then n + 1 else n;
    if m < WHOLE then m else WHOLE
  }

  /** The entry after the first `m` of two commands. */
  function First(a: Action, b: Action, m: int, e: Option<Entry>, now: nat): Option<Entry> {
    if m <= 0 then e else if m == 1 then Effect(a, e, now) else Effect(b, Effect(a, e, now), now)
  }

  /** What a create that has reached `stage` makes of the entry under `k`. */
  function StageEntry(db: Db, s: Session, scored: nat, ttl: nat, stage: nat, k: Key): Option<Entry> {
    var e := Get(db, k);
    match k
    case SessionKey(id) =>
      if id == s.id then First(HSetRecord(Encode(s)), Expire(1000 * ttl), stage, e, db.now) else e
    case RoomKey(code) =>
      if code == s.roomCode && code != "" && stage >= CODE_WRITTEN then Effect(SetText(s.id, 1000 * ttl), e, db.now)
      else e
    case UserKey(user) =>
      if user == s.createdBy then First(SAdd(s.id), Expire(1000 * ttl), stage - CODE_WRITTEN, e, db.now) else e
    case ActiveKey =>
      if stage >= WHOLE then Effect(ZAdd(s.id, Score(scored, ttl)), e, db.now) else e
    case _ => e
  }

  /** The n-th command of the create pipeline. */
  function CreateCommand(s: Session, scored: nat, ttl: nat, n: nat): Command<Key> {
    if n == 0 then Command(SessionKey(s.id), HSetRecord(Encode(s)))
    else if n == 1 then Command(SessionKey(s.id), Expire(1000 * ttl))
    else
      var m := if s.roomCode == "" then n + 1 else n;
      if m == 2 then Command(RoomKey(s.roomCode), SetText(s.id, 1000 * ttl))
      else if m == 3 then Command(UserKey(s.createdBy), SAdd(s.id))
      else if m == 4 then Command(UserKey(s.createdBy), Expire(1000 * ttl))
      else Command(ActiveKey, ZAdd(s.id, Score(scored, ttl)))
  }

  lemma CreatePipelineAt(s: Session, scored: nat, ttl: nat)
    ensures |CreatePipeline(s, scored, ttl)| == if s.roomCode == "" then 5 else 6
    ensures forall n :: 0 <= n < |CreatePipeline(s, scored, ttl)| ==>
              CreatePipeline(s, scored, ttl)[n] == CreateCommand(s, scored, ttl, n)
  {
  }

  lemma NextStage(db: Db, s: Session, scored: nat, ttl: nat, n: nat, k: Key)
    requires n < if s.roomCode == "" then 5 else 6
    ensures var c := CreateCommand(s, scored, ttl, n);
            var e := StageEntry(db, s, scored, ttl, Stage(s, n), k);
            StageEntry(db, s, scored, ttl, Stage(s, n + 1), k) == if k == c.key then Effect(c.action, e, db.now) else e
  {
  }

  lemma GetExec(db: Db, c: Command<Key>, k: Key)
    ensures Exec(db, c.key, c.action).now == db.now
    ensures Get(Exec(db, c.key, c.action), k) == if k == c.key then Effect(c.action, Get(db, k), db.now) else Get(db, k)
  {
  }

  lemma RunPrefix(db: Db, p: seq<Command<Key>>, n: nat)
    requires n < |p|
    ensures Run(db, p[..n + 1]) == Exec(Run(db, p[..n]), p[n].key, p[n].action)
  {
    assert p[..n + 1] == p[..n] + [p[n]];
    RunAppend(db, p[..n], p[n]);
  }

  /** The first `n` commands of the create pipeline change each key as its stage says. */
  lemma {:induction false} CutCreateClosedForm(db: Db, s: Session, scored: nat, ttl: nat, n: nat, k: Key)
    requires n <= |CreatePipeline(s, scored, ttl)|
    ensures CutCreate(db, s, scored, ttl, n).now == db.now
    ensures Get(CutCreate(db, s, scored, ttl, n), k) == StageEntry(db, s, scored, ttl, Stage(s, n), k)
    decreases n
  {
    if n > 0 {
      CutCreateClosedForm(db, s, scored, ttl, n - 1, k);
      CreatePipelineAt(s, scored, ttl);
      RunPrefix(db, CreatePipeline(s, scored, ttl), n - 1);
      GetExec(CutCreate(db, s, scored, ttl, n - 1), CreateCommand(s, scored, ttl, n - 1), k);
      NextStage(db, s, scored, ttl, n - 1, k);
    }
  }

  lemma CreateIsWhole(db: Db, s: Session, scored: nat, ttl: nat)
    ensures Create(db, s, scored, ttl) == CutCreate(db, s, scored, ttl, 6)
    ensures Stage(s, |CreatePipeline(s, scored, ttl)|) == WHOLE
  {
    var p := CreatePipeline(s, scored, ttl);
    CreatePipelineAt(s, scored, ttl);
    assert p[..|p|] == p;
  }

  /** The whole pipeline changes exactly the hash, the room code, the creator's set and
      the active set. */
  lemma CreateClosedForm(db: Db, s: Session, scored: nat, ttl: nat, k: Key)
    ensures Create(db, s, scored, ttl).now == db.now
    ensures Get(Create(db, s, scored, ttl), k) == StageEntry(db, s, scored, ttl, WHOLE, k)
  {
    CreateIsWhole(db, s, scored, ttl);
    CutCreateClosedForm(db, s, scored, ttl, |CreatePipeline(s, scored, ttl)|, k);
  }

  // ---- how far a delete has come ----

  /** What the first `n` commands of a delete make of the entry under `k`. */
  function DropEntry(db: Db, s: Session, id: string, n: nat, k: Key): Option<Entry> {
    var e := Get(db, k);
    match k
    case SessionKey(j) => if j == id && n >= 1 then None else e
    case AccessKey(j) => if j == id && n >= 2 then None else e
    case UserKey(user) => if user == s.createdBy && n >= 3 then Effect(SRem(id), e, db.now) else e
    case ActiveKey => if n >= 4 then Effect(ZRem(id), e, db.now) else e
    case RoomKey(code) => if code == s.roomCode && code != "" && n >= 5 then None else e
    case _ => e
  }

  function DropCommand(s: Session, id: string, n: nat): Command<Key> {
    if n == 0 then Command(SessionKey(id), Del)
    else if n == 1 then Command(AccessKey(id), Del)
    else if n == 2 then Command(UserKey(s.createdBy), SRem(id))
    else if n == 3 then Command(ActiveKey, ZRem(id))
    else Command(RoomKey(s.roomCode), Del)
  }

  lemma DeletePipelineAt(s: Session, id: string)
    ensures |DeletePipeline(s, id)| == if s.roomCode == "" then 4 else 5
    ensures forall n :: 0 <= n < |DeletePipeline(s, id)| ==> DeletePipeline(s, id)[n] == DropCommand(s, id, n)
  {
  }

  lemma NextDrop(db: Db, s: Session, id: string, n: nat, k: Key)
    requires n < if s.roomCode == "" then 4 else 5
    ensures var c, e := DropCommand(s, id, n), DropEntry(db, s, id, n, k);
            DropEntry(db, s, id, n + 1, k) == if k == c.key then Effect(c.action, e, db.now) else e
  {
  }

  /** The first `n` commands of the delete pipeline drop exactly what they name. */
  lemma {:induction false} CutDeleteClosedForm(db: Db, s: Session, id: string, n: nat, k: Key)
    requires n <= |DeletePipeline(s, id)|
    ensures Run(db, DeletePipeline(s, id)[..n]).now == db.now
    ensures Get(Run(db, DeletePipeline(s, id)[..n]), k) == DropEntry(db, s, id, n, k)
    decreases n
  {
    if n > 0 {
      var p := DeletePipeline(s, id);
      CutDeleteClosedForm(db, s, id, n - 1, k);
      DeletePipelineAt(s, id);
      RunPrefix(db, p, n - 1);
      GetExec(Run(db, p[..n - 1]), p[n - 1], k);
      NextDrop(db, s, id, n - 1, k);
    }
  }

  /** The whole pipeline removes the hash, the access hash, the room code and the id's
      place in the two indexes, and leaves the ingress set. */
  lemma DeleteClosedForm(db: Db, s: Session, id: string, k: Key)
    ensures Run(db, DeletePipeline(s, id)).now == db.now
    ensures Get(Run(db, DeletePipeline(s, id)), k) == DropEntry(db, s, id, 5, k)
  {
    var p := DeletePipeline(s, id);
    DeletePipelineAt(s, id);
    assert p[..|p|] == p;
    CutDeleteClosedForm(db, s, id, |p|, k);
  }
}
