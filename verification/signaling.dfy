/**
 The signaling server's handlers and the janitor's sweep over the store and the
 LiveKit ingresses, with failing calls.

 Handlers run one after the other, each at one instant of the store's clock; time
 passes between them. Session and ingress ids are never reused.
 */
module Signaling {
  import opened Common
  import opened Decimals
  import opened Redis
  import opened Keys
  import opened SessionStore
  import opened StoreIndex

  /** A pipelined store write: it succeeds, or reports an error after some prefix of
      its commands took effect. */
  datatype Call = Done | Failed(applied: nat)

  /** UpdateSessionStatus: complete; failed before the status was written; the write
      took effect but its reply was lost; or only the removal from the active set
      failed, which the source just logs. */
  datatype UpdateCall = Written | NotWritten | ReplyLost | StillListed

  /** Which calls of a join work: `looked`, the lookup of the room code; `created` and
      `rolledBack`, those to LiveKit; `signed`, the token. */
  datatype JoinFaults = JoinFaults(looked: bool, created: bool, grant: Call, rolledBack: bool, recorded: Call,
                                   signed: bool)

  /** A listing reads to its end, or fails on the way; `spared` are the ids it should have
      removed from the index it reads but did not. */
  datatype Listing = Listing(ok: bool, spared: set<string>)

  /** `listed`: the ingress ids could be read; `kept`: the ids whose delete failed. */
  datatype CloseFaults = CloseFaults(listed: bool, kept: set<string>, update: UpdateCall)

  const NO_FAULTS := CloseFaults(true, {}, Written)

  /** `ingresses` maps each existing ingress to its session, `owners` each one ever
      created; `leaked` are those whose rollback or whose recording failed. */
  datatype World = World(store: Store, ingresses: map<string, string>, owners: map<string, string>, leaked: set<string>)

  datatype Reply =
    | InvalidArgument | NotFound | PermissionDenied | FailedPrecondition | Internal
    | CameraAdmitted(session: string, ingress: string)
    | DirectorAdmitted(session: string)
    | SessionCreated(code: string)
    | SessionClosed
    | NoReply

  datatype Request =
    | CreateSession(user: string, cameras: int, id: string, code: string, createdAt: string,
                    scored: nat, stored: Call, granted: Call)
    | JoinSession(code: string, user: string, role: string, ingress: string, joinFaults: JoinFaults)
    | CloseSession(code: string, user: string, looked: bool, faults: CloseFaults)
    | GetMySessions(user: string, listing: Listing)
    | Sweep(nowSec: int, listing: Listing, todo: seq<(string, CloseFaults)>)
    | Tick(t: nat)

  function NewSession(user: string, cameras: int, id: string, code: string, createdAt: string): Session
    requires cameras > 0
  {
    Session(id, code, user, createdAt, Decimal(cameras), "active")
  }

  function Send(db: Db, p: seq<Command<Key>>, c: Call): Db {
    match c
    case Done => Run(db, p)
    case Failed(n) => Run(db, p[..if n <= |p| then n else |p|])
  }

  function WithDb(w: World, db: Db): World { w.(store := w.store.(db := db)) }

  // ---- the handlers ----

  function DoCreate(w: World, r: Request): (World, Reply)
    requires r.CreateSession?
  {
    if r.user == "" || r.cameras <= 0 then (w, InvalidArgument)
    else
      var s := NewSession(r.user, r.cameras, r.id, r.code, r.createdAt);
      match r.stored
      case Failed(n) => (w.(store := Step(w.store, OpCutCreate(s, r.scored, n))), Internal)
      case Done =>
        var st := Step(w.store, OpCreate(s, r.scored));
        var w' := w.(store := st.(db := Send(st.db, GrantPipeline(r.id, r.user, "director", st.ttl), r.granted)));
        (w', if r.granted.Done? then SessionCreated(r.code) else Internal)
  }

  function JoinAsCamera(w: World, s: Session, user: string, role: string, ingress: string, f: JoinFaults)
    : (World, Reply)
  {
    if !f.created then (w, Internal)
    else
      var db := w.store.db;
      var w1 := w.(ingresses := w.ingresses[ingress := s.id], owners := w.owners[ingress := s.id]);
      var exists_ := Get(db, SessionKey(s.id)).Some?;
      var db1 := if exists_ then Send(db, GrantPipeline(s.id, user, role, w.store.ttl), f.grant) else db;
      if !exists_ || f.grant.Failed? then
        (if f.rolledBack then WithDb(w1, db1).(ingresses := w.ingresses)
         else WithDb(w1, db1).(leaked := w.leaked + {ingress}), Internal)
      else
        var db2 := Send(db1, IngressPipeline(s.id, ingress, w.store.ttl), f.recorded);
        (WithDb(w1, db2).(leaked := if f.recorded.Done? then w.leaked else w.leaked + {ingress}),
         CameraAdmitted(s.id, ingress))
  }

  function JoinAsDirector(w: World, s: Session, user: string, role: string, f: JoinFaults): (World, Reply) {
    var db := w.store.db;
    if Get(db, SessionKey(s.id)).None? then (w, Internal)
    else
      var w' := WithDb(w, Send(db, GrantPipeline(s.id, user, role, w.store.ttl), f.grant));
      (w', if f.grant.Done? && f.signed then DirectorAdmitted(s.id) else Internal)
  }

  function DoJoin(w: World, r: Request): (World, Reply)
    requires r.JoinSession?
  {
    if r.user == "" || r.role == "" || r.code == "" then (w, InvalidArgument)
    else if !r.joinFaults.looked then (w, NotFound)
    else
      match GetByCode(w.store.db, r.code)
      case Err(_) => (w, NotFound)
      case Ok(s) =>
        if s.status == CLOSED then (w, FailedPrecondition)
        else if r.role == "camera" then JoinAsCamera(w, s, r.user, r.role, r.ingress, r.joinFaults)
        else if r.role == "director" then JoinAsDirector(w, s, r.user, r.role, r.joinFaults)
        else (w, InvalidArgument)
  }

  /** deleteRoom: delete the recorded ingresses; a delete that fails leaves its ingress. */
  function DeleteRoom(w: World, id: string, f: CloseFaults): World {
    if f.listed then w.(ingresses := w.ingresses - (MembersAt(w.store.db, IngressKey(id)) - f.kept)) else w
  }

  function WriteClosed(db: Db, id: string, u: UpdateCall): Db {
    if Get(db, SessionKey(id)).None? then db
    else match u
         case Written => Update(db, id, CLOSED)
         case NotWritten => db
         case _ => SetStatus(db, id, CLOSED)
  }

  /** What CloseSession and the janitor both do to one session. */
  function CloseOne(w: World, id: string, f: CloseFaults): World {
    var w1 := DeleteRoom(w, id, f);
    WithDb(w1, WriteClosed(w1.store.db, id, f.update))
  }

  function DoClose(w: World, r: Request): (World, Reply)
    requires r.CloseSession?
  {
    if r.code == "" || r.user == "" then (w, InvalidArgument)
    else if !r.looked then (w, NotFound)
    else
      match GetByCode(w.store.db, r.code)
      case Err(_) => (w, NotFound)
      case Ok(s) =>
        if s.createdBy != r.user then (w, PermissionDenied)
        else (CloseOne(w, s.id, r.faults),
              if r.faults.update.Written? || r.faults.update.StillListed? then SessionClosed else Internal)
  }

  function CloseAll(w: World, todo: seq<(string, CloseFaults)>): World
    decreases |todo|
  {
    if todo == [] then w else CloseAll(CloseOne(w, todo[0].0, todo[0].1), todo[1..])
  }

  function Handle(w: World, r: Request): (World, Reply) {
    match r
    case CreateSession(_, _, _, _, _, _, _, _) => DoCreate(w, r)
    case JoinSession(_, _, _, _, _) => DoJoin(w, r)
    case CloseSession(_, _, _, _) => DoClose(w, r)
    case GetMySessions(user, listing) =>
      if user == "" then (w, InvalidArgument)
      else (WithDb(w, PruneUser(w.store.db, user, listing.spared)), if listing.ok then NoReply else Internal)
    case Sweep(nowSec, listing, todo) =>
      (CloseAll(WithDb(w, PruneActive(w.store.db, nowSec, listing.spared)), todo), NoReply)
    case Tick(t) => (WithDb(w, Advance(w.store.db, t)), NoReply)
  }

  /** A sweep works through the due sessions it found open, or none if the listing failed. */
  ghost predicate Worklist(db: Db, nowSec: int, ok: bool, todo: seq<(string, CloseFaults)>) {
    && (forall i :: 0 <= i < |todo| ==> todo[i].0 in DueIds(db, nowSec) && IsOpen(db, todo[i].0))
    && (forall i, j :: 0 <= i < j < |todo| ==> todo[i].0 != todo[j].0)
    && if !ok then todo == []
       else forall id :: id in DueIds(db, nowSec) && IsOpen(db, id) ==> exists i :: 0 <= i < |todo| && todo[i].0 == id
  }

  /** New ids are new, the code was found free by NewRoomCode, and the score was computed
      no longer ago than the lag allows. */
  ghost predicate Possible(w: World, r: Request) {
    match r
    case CreateSession(_, _, id, code, createdAt, scored, _, _) =>
      && OnTime(w.store, scored) && id !in w.store.used && createdAt != "" && code != ""
      && Get(w.store.db, RoomKey(code)).None?
    case JoinSession(_, _, _, ingress, _) => ingress !in w.owners
    case Sweep(nowSec, listing, todo) => Worklist(w.store.db, nowSec, listing.ok, todo)
    case _ => true
  }
}
