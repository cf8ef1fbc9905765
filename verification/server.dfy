/**
 The signaling server and the janitor as objects: the handlers call the store and
 LiveKit in the source's order, and each is proved to do what its function in
 Signaling says.
 */
module ServerObject {
  import opened Common
  import opened Redis
  import opened Keys
  import opened SessionStore
  import opened StoreIndex
  import opened RedisStoreObject
  import opened Signaling
  import opened Histories
  import RoomCode

  // ---- what a listing of expired sessions contains ----

  function Todo(found: seq<Session>, faults: string -> CloseFaults): seq<(string, CloseFaults)> {
    seq(|found|, i requires 0 <= i < |found| => (found[i].id, faults(found[i].id)))
  }

  lemma {:induction false} FoundOpenListsOpen(st: Store, ids: seq<string>)
    requires Inv(st) && Distinct(ids)
    ensures forall s :: s in FoundOpen(st.db, ids) <==> Stored(st.db, s) && s.status != CLOSED && s.id in ids
    ensures forall i, j :: 0 <= i < j < |FoundOpen(st.db, ids)| ==>
              FoundOpen(st.db, ids)[i].id != FoundOpen(st.db, ids)[j].id
    decreases |ids|
  {
    if ids != [] {
      var last := |ids| - 1;
      FoundOpenListsOpen(st, ids[..last]);
      assert Indexed(st, ids[last]);
      forall s ensures s in FoundOpen(st.db, ids) <==> Stored(st.db, s) && s.status != CLOSED && s.id in ids {
        assert s.id in ids <==> s.id in ids[..last] || s.id == ids[last];
      }
      var found := FoundOpen(st.db, ids[..last]);
      forall i | 0 <= i < |found| ensures found[i].id != ids[last] { assert found[i] in found; }
    }
  }

  lemma SweepIsPossible(st: Store, nowSec: int, ids: seq<string>, faults: string -> CloseFaults)
    requires Inv(st) && Lists(ids, DueIds(st.db, nowSec))
    ensures Worklist(st.db, nowSec, true, Todo(FoundOpen(st.db, ids), faults))
  {
    FoundOpenListsOpen(st, ids);
    var found := FoundOpen(st.db, ids);
    var todo := Todo(found, faults);
    forall i | 0 <= i < |todo| ensures todo[i].0 in DueIds(st.db, nowSec) && IsOpen(st.db, todo[i].0) {
      assert found[i] in found;
    }
    forall id | id in DueIds(st.db, nowSec) && IsOpen(st.db, id)
      ensures exists i :: 0 <= i < |todo| && todo[i].0 == id
    {
      assert Indexed(st, id);
      assert GetSession(st.db, id).value in found;
      var i :| 0 <= i < |found| && found[i] == GetSession(st.db, id).value;
      assert todo[i].0 == id;
    }
  }

  /** In a store whose indexes agree a listing fails only because Redis does. */
  lemma OnlyRedisFails(st: Store, ids: seq<string>, listed: bool, readable: string -> bool, e: Error)
    requires Inv(st) && ListingFailed(st.db, ids, listed, readable, e)
    ensures !listed || exists id :: id in ids && !readable(id)
  {
    EverythingReads(st);
  }

  class Server {
    const store: RedisStore
    var ingresses: map<string, string>
    ghost var owners: map<string, string>
    ghost var leaked: set<string>
    ghost var used: set<string>
    ghost var cut: map<string, nat>
    ghost const lag: nat

    constructor (store: RedisStore, ghost lag: nat)
      ensures this.store == store && ingresses == map[] && owners == map[] && leaked == {} && used == {}
      ensures cut == map[] && this.lag == lag
    {
      this.store, this.lag := store, lag;
      ingresses, owners, leaked, used, cut := map[], map[], {}, {}, map[];
    }

    ghost function Now(): World
      reads this, store
    {
      World(Store(store.db, store.ttl, used, cut, lag), ingresses, owners, leaked)
    }

    method SendPipeline(p: seq<Command<Key>>, c: Call)
      modifies store
      ensures store.db == Send(old(store.db), p, c)
    {
      match c
      case Done => store.Pipeline(p);
      case Failed(n) => store.Pipeline(p[..if n <= |p| then n else |p|]);
    }

    /** `draws` and `answers` are the random numbers and the lookups of NewRoomCode; `code`
        is the room code it picked, empty when it picked none. A code it picked is free,
        as every run of the server relies on. */
    method CreateSession(user: string, cameras: int, id: string, draws: seq<nat>, answers: nat -> bool,
                         createdAt: string, scored: nat, stored: Call, granted: Call)
      returns (reply: Reply, code: string)
      requires forall i :: 0 <= i < |draws| ==> draws[i] < 1_000_000
      modifies this, store
      ensures code == "" ==> Now() == old(Now())
      ensures code == "" ==> reply == if user == "" || cameras <= 0 then InvalidArgument else Internal
      ensures code != "" ==>
                var r := Request.CreateSession(user, cameras, id, code, createdAt, scored, stored, granted);
                && (Now(), reply) == Handle(old(Now()), r)
                && (id !in old(used) && createdAt != "" && OnTime(old(Now()).store, scored) ==> Possible(old(Now()), r))
    {
      if user == "" || cameras <= 0 {
        return InvalidArgument, "";
      }
      var picked, tried := RoomCode.NewRoomCode(store, draws, answers);
      if picked.Err? {
        return Internal, "";
      }
      code := picked.value;
      assert code[0] == 'R';
      var s := NewSession(user, cameras, id, code, createdAt);
      SendPipeline(CreatePipeline(s, scored, store.ttl), stored);
      used := used + {id};
      if stored.Failed? {
        cut := if Stage(s, stored.applied) < WHOLE then cut[id := Stage(s, stored.applied)] else cut;
        return Internal, code;
      }
      SendPipeline(GrantPipeline(id, user, "director", store.ttl), granted);
      reply := if granted.Done? then SessionCreated(code) else Internal;
    }

    method JoinSession(code: string, user: string, role: string, ingress: string, f: JoinFaults) returns (reply: Reply)
      modifies this, store
      ensures (Now(), reply) == Handle(old(Now()), Request.JoinSession(code, user, role, ingress, f))
    {
      if user == "" || role == "" || code == "" {
        return InvalidArgument;
      }
      if !f.looked {
        return NotFound;
      }
      match GetByCode(store.db, code)
      case Err(_) => return NotFound;
      case Ok(s) =>
        if s.status == CLOSED {
          return FailedPrecondition;
        }
        if role == "camera" {
          reply := JoinCamera(s, user, role, ingress, f);
        } else if role == "director" {
          reply := JoinDirector(s, user, role, f);
        } else {
          reply := InvalidArgument;
        }
    }

    /** The ingress is created first and rolled back when access cannot be granted. */
    method JoinCamera(s: Session, user: string, role: string, ingress: string, f: JoinFaults) returns (reply: Reply)
      modifies this, store
      ensures (Now(), reply) == JoinAsCamera(old(Now()), s, user, role, ingress, f)
    {
      if !f.created {
        return Internal;
      }
      var before := ingresses;
      ingresses := ingresses[ingress := s.id];
      owners := owners[ingress := s.id];
      var found := SessionKey(s.id) in store.db.entries;
      if found {
        SendPipeline(GrantPipeline(s.id, user, role, store.ttl), f.grant);
      }
      if !found || f.grant.Failed? {
        if f.rolledBack {
          ingresses := before;
        } else {
          leaked := leaked + {ingress};
        }
        return Internal;
      }
      SendPipeline(IngressPipeline(s.id, ingress, store.ttl), f.recorded);
      if f.recorded.Failed? {
        leaked := leaked + {ingress};
      }
      reply := CameraAdmitted(s.id, ingress);
    }

    method JoinDirector(s: Session, user: string, role: string, f: JoinFaults) returns (reply: Reply)
      modifies this, store
      ensures (Now(), reply) == JoinAsDirector(old(Now()), s, user, role, f)
    {
      if SessionKey(s.id) !in store.db.entries {
        return Internal;
      }
      SendPipeline(GrantPipeline(s.id, user, role, store.ttl), f.grant);
      reply := if f.grant.Done? && f.signed then DirectorAdmitted(s.id) else Internal;
    }

    /** deleteRoom: one delete per recorded ingress id. */
    method DeleteIngresses(id: string, f: CloseFaults)
      modifies this
      ensures Now() == DeleteRoom(old(Now()), id, f)
    {
      if !f.listed {
        return;
      }
      var ids := Elements(MembersAt(store.db, IngressKey(id)));
      var before := ingresses;
      ghost var gone: set<string> := {};
      var i := 0;
      assert before - {} == before;
      while i < |ids|
        invariant 0 <= i <= |ids|
        invariant gone == set j | 0 <= j < i && ids[j] !in f.kept :: ids[j]
        invariant ingresses == before - gone
        invariant owners == old(owners) && leaked == old(leaked) && used == old(used) && cut == old(cut)
      {
        if ids[i] !in f.kept {
          ingresses := ingresses - {ids[i]};
          gone := gone + {ids[i]};
          assert before - gone == (before - (gone - {ids[i]})) - {ids[i]};
        }
        i := i + 1;
      }
      assert gone == MembersAt(store.db, IngressKey(id)) - f.kept;
    }

    /** deleteRoom, then the status update. */
    method CloseRoom(id: string, f: CloseFaults)
      modifies this, store
      ensures Now() == CloseOne(old(Now()), id, f)
    {
      DeleteIngresses(id, f);
      match f.update {
        case Written => var _ := store.UpdateSessionStatus(id, CLOSED);
        case NotWritten =>
        case _ =>
          if SessionKey(id) in store.db.entries {
            store.Pipeline([Command(SessionKey(id), HSetRecord(map[FStatus := CLOSED]))]);
            RunOne(old(store.db), Command(SessionKey(id), HSetRecord(map[FStatus := CLOSED])));
          }
      }
    }

    method CloseSession(code: string, user: string, looked: bool, f: CloseFaults) returns (reply: Reply)
      modifies this, store
      ensures (Now(), reply) == Handle(old(Now()), Request.CloseSession(code, user, looked, f))
    {
      if code == "" || user == "" {
        return InvalidArgument;
      }
      if !looked {
        return NotFound;
      }
      match GetByCode(store.db, code)
      case Err(_) => return NotFound;
      case Ok(s) =>
        if s.createdBy != user {
          return PermissionDenied;
        }
        CloseRoom(s.id, f);
        reply := if f.update.Written? || f.update.StillListed? then SessionClosed else Internal;
    }

    /** Lists the stored sessions the user created, each once; only one whose create was cut
        short may be missing. It fails exactly when Redis does. */
    method GetMySessions(user: string, listed: bool, readable: string -> bool, removes: string -> bool)
      returns (reply: Reply, sessions: seq<Session>, ghost listing: Listing)
      modifies store
      ensures (Now(), reply) == Handle(old(Now()), Request.GetMySessions(user, listing))
      ensures Inv(old(Now()).store) && user != "" ==>
                (reply == NoReply <==>
                   listed && forall id :: id in MembersAt(old(store.db), UserKey(user)) ==> readable(id))
      ensures Inv(old(Now()).store) && reply == NoReply ==>
                && (forall s :: s in sessions ==> Stored(old(store.db), s) && s.createdBy == user)
                && (forall s | Stored(old(store.db), s) && s.createdBy == user ::
                      StageOf(old(Now()).store, s.id) >= LISTED ==> s in sessions)
                && (forall i, j :: 0 <= i < j < |sessions| ==> sessions[i] != sessions[j])
    {
      listing := Listing(false, {});
      if user == "" {
        return InvalidArgument, [], listing;
      }
      ghost var st := Now().store;
      var found, ids, spared := store.GetUserSessions(user, listed, readable, removes);
      listing := Listing(found.Ok?, spared);
      if found.Err? {
        if Inv(st) { OnlyRedisFails(st, ids, listed, readable, found.error); }
        return Internal, [], listing;
      }
      if Inv(st) { UserListingIsFilter(st, user, ids); }
      reply, sessions := NoReply, found.value;
    }

    /** The janitor's loop: a close that fails does not stop it. */
    method CloseListed(sessions: seq<Session>, faults: string -> CloseFaults)
      modifies this, store
      ensures Now() == CloseAll(old(Now()), Todo(sessions, faults))
    {
      ghost var todo := Todo(sessions, faults);
      var i := 0;
      assert todo[0..] == todo;
      while i < |sessions|
        invariant 0 <= i <= |sessions| && CloseAll(old(Now()), todo) == CloseAll(Now(), todo[i..])
      {
        assert todo[i..][1..] == todo[i + 1..] && todo[i..][0] == (sessions[i].id, faults(sessions[i].id));
        CloseRoom(sessions[i].id, faults(sessions[i].id));
        i := i + 1;
      }
    }

    /** SweepAt: nothing without the lock; otherwise list the expired sessions and close
        them one by one. */
    method SweepAt(nowSec: int, acquired: bool, listed: bool, readable: string -> bool, removes: string -> bool,
                   faults: string -> CloseFaults)
      returns (ghost r: Request)
      modifies this, store
      ensures r.Sweep? && r.nowSec == nowSec
      ensures !acquired ==> Now() == old(Now())
      ensures acquired && Inv(old(Now()).store) ==> Possible(old(Now()), r) && Now() == Handle(old(Now()), r).0
      ensures acquired && Inv(old(Now()).store) ==>
                (r.listing.ok <==> listed && forall id :: id in DueIds(old(store.db), nowSec) ==> readable(id))
      ensures acquired && r.listing.ok ==>
                && (forall id :: id in r.listing.spared ==> !removes(id))
                && (forall i :: 0 <= i < |r.todo| ==> r.todo[i].1 == faults(r.todo[i].0))
    {
      r := Sweep(nowSec, Listing(false, {}), []);
      if !acquired {
        return;
      }
      ghost var w := Now();
      var found, ids, spared := store.GetExpiredSessions(nowSec, listed, readable, removes);
      if found.Err? {
        r := Sweep(nowSec, Listing(false, spared), []);
        if Inv(w.store) { OnlyRedisFails(w.store, ids, listed, readable, found.error); }
        return;
      }
      r := Sweep(nowSec, Listing(true, spared), Todo(found.value, faults));
      CloseListed(found.value, faults);
      if Inv(w.store) { SweepIsPossible(w.store, nowSec, ids, faults); }
    }
  }
}
