/**
 The store as the object the handlers call: each method sends its commands to the
 key space it holds, in the order the source sends them.
 */
module RedisStoreObject {
  import opened Common
  import opened Redis
  import opened Keys
  import opened SessionStore
  import opened StoreIndex

  predicate Distinct(ids: seq<string>) {
    forall i, j :: 0 <= i < j < |ids| ==> ids[i] != ids[j]
  }

  /** `ids` lists the elements of `s`, each once, in some order. */
  ghost predicate Lists(ids: seq<string>, s: set<string>) {
    Distinct(ids) && forall id :: id in ids <==> id in s
  }

  /** The sessions found under a list of ids, skipping those that are gone. */
  function Found(db: Db, ids: seq<string>): seq<Session> {
    if ids == [] then []
    else
      var last := |ids| - 1;
      match GetSession(db, ids[last])
      case Ok(s) => Found(db, ids[..last]) + [s]
      case Err(_) => Found(db, ids[..last])
  }

  /** The sessions found under a list of ids that are not closed. */
  function FoundOpen(db: Db, ids: seq<string>): seq<Session> {
    if ids == [] then []
    else
      var last := |ids| - 1;
      if IsOpen(db, ids[last]) then FoundOpen(db, ids[..last]) + [GetSession(db, ids[last]).value]
      else FoundOpen(db, ids[..last])
  }

  lemma FoundNext(db: Db, ids: seq<string>, i: nat)
    requires i < |ids|
    ensures Found(db, ids[..i + 1]) ==
            Found(db, ids[..i]) + (if GetSession(db, ids[i]).Ok? then [GetSession(db, ids[i]).value] else [])
    ensures FoundOpen(db, ids[..i + 1]) ==
            FoundOpen(db, ids[..i]) + (if IsOpen(db, ids[i]) then [GetSession(db, ids[i]).value] else [])
  {
    assert ids[..i + 1][..i] == ids[..i];
  }

  lemma {:induction false} FoundListsStored(st: Store, ids: seq<string>)
    requires Inv(st) && Distinct(ids)
    ensures forall s :: s in Found(st.db, ids) <==> Stored(st.db, s) && s.id in ids
    ensures forall i, j :: 0 <= i < j < |Found(st.db, ids)| ==> Found(st.db, ids)[i].id != Found(st.db, ids)[j].id
    decreases |ids|
  {
    if ids != [] {
      var last := |ids| - 1;
      FoundListsStored(st, ids[..last]);
      assert Indexed(st, ids[last]);
      forall s ensures s in Found(st.db, ids) <==> Stored(st.db, s) && s.id in ids {
        assert s.id in ids <==> s.id in ids[..last] || s.id == ids[last];
      }
      var found := Found(st.db, ids[..last]);
      forall i | 0 <= i < |found| ensures found[i].id != ids[last] { assert found[i] in found; }
    }
  }

  /** GetUserSessions returns what filtering the session hashes by creator would, each
      session once; only a session whose create was cut short may be missing. */
  lemma UserListingIsFilter(st: Store, user: string, ids: seq<string>)
    requires Inv(st) && Lists(ids, MembersAt(st.db, UserKey(user)))
    ensures forall s :: s in Found(st.db, ids) ==> Stored(st.db, s) && s.createdBy == user
    ensures forall s :: Stored(st.db, s) && s.createdBy == user && StageOf(st, s.id) >= LISTED
              ==> s in Found(st.db, ids)
    ensures forall i, j :: 0 <= i < j < |Found(st.db, ids)| ==> Found(st.db, ids)[i] != Found(st.db, ids)[j]
  {
    FoundListsStored(st, ids);
    forall s | Stored(st.db, s)
      ensures s in Found(st.db, ids) ==> s.createdBy == user
      ensures s.createdBy == user && StageOf(st, s.id) >= LISTED ==> s in Found(st.db, ids)
    {
      UserLookupIsFilter(st, user, s);
    }
  }

  method Elements(s: set<string>) returns (ids: seq<string>)
    ensures Lists(ids, s)
  {
    ids := [];
    var rest := s;
    while rest != {}
      invariant Distinct(ids)
      invariant forall id :: id in s <==> id in ids || id in rest
      invariant forall id :: id in ids ==> id !in rest
      decreases rest
    {
      var id :| id in rest;
      ids := ids + [id];
      rest := rest - {id};
    }
  }

  /** The active set after some of its ids were removed. */
  ghost function WithoutScores(db: Db, gone: set<string>): Db {
    if gone == {} || Get(db, ActiveKey).None? then db
    else Space(Put(db.entries, ActiveKey, KeepScores(ActiveScores(db) - gone, db.entries[ActiveKey].expiry)), db.now)
  }

  /** A user's set after some of its ids were removed. */
  ghost function WithoutMembers(db: Db, user: string, gone: set<string>): Db {
    var k := UserKey(user);
    if gone == {} || Get(db, k).None? then db
    else Space(Put(db.entries, k, KeepMembers(MembersAt(db, k) - gone, db.entries[k].expiry)), db.now)
  }

  lemma RemoveMember(db: Db, user: string, gone: set<string>, id: string)
    requires id in MembersAt(db, UserKey(user)) && id !in gone
    ensures Exec(WithoutMembers(db, user, gone), UserKey(user), SRem(id)) == WithoutMembers(db, user, gone + {id})
    ensures GetSession(WithoutMembers(db, user, gone), id) == GetSession(db, id)
  {
    var ms := MembersAt(db, UserKey(user));
    assert (ms - gone) - {id} == ms - (gone + {id}) && ms - {} == ms;
    assert id in ms - gone;
    var d := WithoutMembers(db, user, gone);
    assert Get(d, UserKey(user)) == Some(Entry(Members(ms - gone), db.entries[UserKey(user)].expiry));
  }

  lemma RemoveScore(db: Db, gone: set<string>, id: string)
    requires id in ActiveScores(db) && id !in gone
    ensures Exec(WithoutScores(db, gone), ActiveKey, ZRem(id)) == WithoutScores(db, gone + {id})
    ensures GetSession(WithoutScores(db, gone), id) == GetSession(db, id)
  {
    var sc := ActiveScores(db);
    assert (sc - gone) - {id} == sc - (gone + {id}) && sc - {} == sc;
    assert id in sc - gone;
    var d := WithoutScores(db, gone);
    assert Get(d, ActiveKey) == Some(Entry(Scores(sc - gone), db.entries[ActiveKey].expiry));
  }

  /** The ids a user listing removes: those without a record whose SREM works. */
  function Gone(db: Db, ids: seq<string>, removes: string -> bool): set<string> {
    set id | id in ids && GetSession(db, id) == Err(SessionNotFound) && removes(id)
  }

  /** The ids an expired listing removes: the closed ones whose ZREM works. */
  function AlreadyClosed(db: Db, ids: seq<string>, removes: string -> bool): set<string> {
    set id | id in ids && IsClosed(db, id) && removes(id)
  }

  lemma PrefixGrows(ids: seq<string>, i: nat)
    requires i < |ids| && Distinct(ids)
    ensures ids[i] !in ids[..i] && forall id :: id in ids[..i + 1] <==> id in ids[..i] || id == ids[i]
  {
    assert ids[..i + 1] == ids[..i] + [ids[i]];
  }

  lemma GoneIsPruned(db: Db, user: string, ids: seq<string>, removes: string -> bool, i: nat)
    requires Lists(ids, MembersAt(db, UserKey(user))) && i <= |ids|
    ensures WithoutMembers(db, user, Gone(db, ids[..i], removes))
         == PruneUser(db, user, SparedGone(db, ids, removes, i))
  {
    var ms, gone := MembersAt(db, UserKey(user)), Gone(db, ids[..i], removes);
    var spared := SparedGone(db, ids, removes, i);
    var kept := set id | id in ms && (id in spared || GetSession(db, id) != Err(SessionNotFound));
    assert forall id :: id in ids[..i] ==> id in ids;
    assert ms - gone == kept;
    if gone != {} {
      var id :| id in gone;
      assert id in ms && id !in kept;
    } else {
      assert kept == ms;
    }
  }

  lemma ClosedIsPruned(db: Db, nowSec: int, ids: seq<string>, removes: string -> bool, i: nat)
    requires Lists(ids, DueIds(db, nowSec)) && i <= |ids|
    ensures WithoutScores(db, AlreadyClosed(db, ids[..i], removes))
         == PruneActive(db, nowSec, SparedClosed(db, ids, removes, i))
  {
    var sc, closed := ActiveScores(db), AlreadyClosed(db, ids[..i], removes);
    assert forall id :: id in ids[..i] ==> id in ids;
    assert closed == set id | id in sc && sc[id] <= nowSec && IsClosed(db, id)
                         && id !in SparedClosed(db, ids, removes, i);
  }

  /** What the loops have left in place after i turns of what they should remove. */
  function SparedGone(db: Db, ids: seq<string>, removes: string -> bool, i: nat): set<string>
    requires i <= |ids|
  {
    Gone(db, ids, _ => true) - Gone(db, ids[..i], removes)
  }

  function SparedClosed(db: Db, ids: seq<string>, removes: string -> bool, i: nat): set<string>
    requires i <= |ids|
  {
    AlreadyClosed(db, ids, _ => true) - AlreadyClosed(db, ids[..i], removes)
  }

  /** One turn of the user listing's loop. */
  lemma PruneMemberStep(db: Db, user: string, ids: seq<string>, removes: string -> bool, i: nat)
    requires Lists(ids, MembersAt(db, UserKey(user))) && i < |ids|
    ensures var d := PruneUser(db, user, SparedGone(db, ids, removes, i));
            && GetSession(d, ids[i]) == GetSession(db, ids[i])
            && PruneUser(db, user, SparedGone(db, ids, removes, i + 1))
               == if GetSession(db, ids[i]) == Err(SessionNotFound) && removes(ids[i])
                  then Exec(d, UserKey(user), SRem(ids[i])) else d
  {
    PrefixGrows(ids, i);
    assert ids[i] in ids;
    GoneIsPruned(db, user, ids, removes, i);
    GoneIsPruned(db, user, ids, removes, i + 1);
    var gone, gone' := Gone(db, ids[..i], removes), Gone(db, ids[..i + 1], removes);
    RemoveMember(db, user, gone, ids[i]);
    if GetSession(db, ids[i]) == Err(SessionNotFound) && removes(ids[i]) {
      assert gone' == gone + {ids[i]};
    } else {
      assert gone' == gone;
    }
  }

  /** One turn of the expired listing's loop. */
  lemma PruneScoreStep(db: Db, nowSec: int, ids: seq<string>, removes: string -> bool, i: nat)
    requires Lists(ids, DueIds(db, nowSec)) && i < |ids|
    ensures var d := PruneActive(db, nowSec, SparedClosed(db, ids, removes, i));
            && GetSession(d, ids[i]) == GetSession(db, ids[i])
            && PruneActive(db, nowSec, SparedClosed(db, ids, removes, i + 1))
               == if IsClosed(db, ids[i]) && removes(ids[i]) then Exec(d, ActiveKey, ZRem(ids[i])) else d
  {
    PrefixGrows(ids, i);
    assert ids[i] in ids;
    ClosedIsPruned(db, nowSec, ids, removes, i);
    ClosedIsPruned(db, nowSec, ids, removes, i + 1);
    var closed, closed' := AlreadyClosed(db, ids[..i], removes), AlreadyClosed(db, ids[..i + 1], removes);
    RemoveScore(db, closed, ids[i]);
    if IsClosed(db, ids[i]) && removes(ids[i]) {
      assert closed' == closed + {ids[i]};
    } else {
      assert closed' == closed;
    }
  }

  lemma NothingPrunedYet(db: Db, user: string, nowSec: int, ids: seq<string>, removes: string -> bool)
    ensures Lists(ids, MembersAt(db, UserKey(user))) ==> PruneUser(db, user, SparedGone(db, ids, removes, 0)) == db
    ensures Lists(ids, DueIds(db, nowSec)) ==> PruneActive(db, nowSec, SparedClosed(db, ids, removes, 0)) == db
  {
    assert ids[..0] == [];
    if Lists(ids, MembersAt(db, UserKey(user))) { GoneIsPruned(db, user, ids, removes, 0); }
    if Lists(ids, DueIds(db, nowSec)) { ClosedIsPruned(db, nowSec, ids, removes, 0); }
  }

  /** At the end only ids whose removal failed are left of those that should go. */
  lemma SparedAtTheEnd(db: Db, ids: seq<string>, removes: string -> bool)
    ensures forall id :: id in SparedGone(db, ids, removes, |ids|) ==> !removes(id)
    ensures forall id :: id in SparedClosed(db, ids, removes, |ids|) ==> !removes(id)
  {
    assert ids[..|ids|] == ids;
  }

  /** A listing fails when the ids cannot be read, or one of the records cannot. */
  ghost predicate ListingFailed(db: Db, ids: seq<string>, listed: bool, readable: string -> bool, e: Error) {
    || (e == Unavailable && (!listed || exists id :: id in ids && !readable(id)))
    || (e != SessionNotFound && exists id :: id in ids && GetSession(db, id) == Err(e))
  }

  class RedisStore {
    var db: Db
    const ttl: nat

    constructor (ttl: nat, now: nat)
      ensures this.ttl == ttl && db == Empty(now, ttl, 0).db
    {
      this.ttl := ttl;
      db := Space(map[], now);
    }

    /** NewRedisStore: the backoff must be positive and Redis must answer the ping. */
    static method NewRedisStore(ttl: nat, backoff: int, pinged: bool, now: nat) returns (r: Result<RedisStore>)
      ensures r.Ok? <==> backoff > 0 && pinged
      ensures r.Err? ==> r.error == if backoff <= 0 then BadBackoff else Unavailable
      ensures r.Ok? ==> fresh(r.value) && r.value.ttl == ttl && r.value.db == Empty(now, ttl, 0).db
    {
      if backoff <= 0 {
        return Err(BadBackoff);
      }
      if !pinged {
        return Err(Unavailable);
      }
      var store := new RedisStore(ttl, now);
      r := Ok(store);
    }

    /** Sends a pipeline: one command after the other. */
    method Pipeline(p: seq<Command<Key>>)
      modifies this
      ensures db == Run(old(db), p)
    {
      var i := 0;
      while i < |p|
        invariant 0 <= i <= |p| && db == Run(old(db), p[..i])
      {
        db := Exec(db, p[i].key, p[i].action);
        i := i + 1;
        assert p[..i][..i - 1] == p[..i - 1];
      }
      assert p[..|p|] == p;
    }

    /** `scored`: what the server's clock shows while it builds the pipeline. */
    method CreateSession(s: Session, scored: nat)
      modifies this
      ensures db == Create(old(db), s, scored, ttl)
    {
      Pipeline(CreatePipeline(s, scored, ttl));
    }

    method UpdateSessionStatus(id: string, status: string) returns (r: Result<()>)
      modifies this
      ensures db == Update(old(db), id, status)
      ensures r == if Get(old(db), SessionKey(id)).Some? then Ok(()) else Err(SessionNotFound)
      ensures r.Err? ==> db == old(db)
    {
      if SessionKey(id) !in db.entries {
        return Err(SessionNotFound);
      }
      db := Exec(db, SessionKey(id), HSetRecord(map[FStatus := status]));
      if status == CLOSED {
        db := Exec(db, ActiveKey, ZRem(id));
      }
      r := Ok(());
    }

    method DeleteSession(id: string) returns (r: Result<()>)
      modifies this
      ensures db == Delete(old(db), id)
      ensures match GetSession(old(db), id) case Ok(_) => r == Ok(()) case Err(e) => r == Err(e)
      ensures r.Err? ==> db == old(db)
    {
      match GetSession(db, id)
      case Err(e) => r := Err(e);
      case Ok(s) =>
        Pipeline(DeletePipeline(s, id));
        r := Ok(());
    }

    method GrantAccess(id: string, user: string, role: string) returns (r: Result<()>)
      modifies this
      ensures db == Grant(old(db), id, user, role, ttl)
      ensures r == if Get(old(db), SessionKey(id)).Some? then Ok(()) else Err(SessionNotFound)
      ensures r.Err? ==> db == old(db)
    {
      if SessionKey(id) !in db.entries {
        return Err(SessionNotFound);
      }
      Pipeline(GrantPipeline(id, user, role, ttl));
      r := Ok(());
    }

    method AddIngressID(id: string, ingress: string)
      modifies this
      ensures db == AddIngress(old(db), id, ingress, ttl)
    {
      Pipeline(IngressPipeline(id, ingress, ttl));
    }

    /** Ids whose hash is gone are dropped from the user's set on the way; the first
        record that cannot be read ends the listing. `listed`, `readable` and `removes` say
        which of its calls to Redis work. */
    method GetUserSessions(user: string, listed: bool, readable: string -> bool, removes: string -> bool)
      returns (r: Result<seq<Session>>, ghost ids: seq<string>, ghost spared: set<string>)
      modifies this
      ensures Lists(ids, MembersAt(old(db), UserKey(user))) && db == PruneUser(old(db), user, spared)
      ensures r.Ok? ==> r.value == Found(old(db), ids) && listed && forall id :: id in ids ==> readable(id)
      ensures r.Ok? ==> forall id :: id in spared ==> !removes(id)
      ensures r.Err? ==> ListingFailed(old(db), ids, listed, readable, r.error)
    {
      var before := db;
      var list := Elements(MembersAt(db, UserKey(user)));
      ids, spared := list, SparedGone(db, list, removes, 0);
      NothingPrunedYet(before, user, 0, list, removes);
      if !listed {
        return Err(Unavailable), ids, spared;
      }
      var sessions := [];
      var i := 0;
      while i < |list|
        invariant 0 <= i <= |list|
        invariant forall j :: 0 <= j < i ==> readable(list[j])
        invariant sessions == Found(before, list[..i])
        invariant spared == SparedGone(before, list, removes, i) && db == PruneUser(before, user, spared)
      {
        var id := list[i];
        FoundNext(before, list, i);
        PruneMemberStep(before, user, list, removes, i);
        if !readable(id) {
          return Err(Unavailable), ids, spared;
        }
        var found := GetSession(db, id);
        assert found == GetSession(before, id);
        if found.Ok? {
          sessions := sessions + [found.value];
        } else if found.error != SessionNotFound {
          return Err(found.error), ids, spared;
        } else if removes(id) {
          db := Exec(db, UserKey(user), SRem(id));
        }
        i := i + 1;
        spared := SparedGone(before, list, removes, i);
      }
      assert list[..|list|] == list;
      SparedAtTheEnd(before, list, removes);
      r := Ok(sessions);
    }

    /** Ids whose hash is gone stay in the active set; ids already closed leave it. */
    method GetExpiredSessions(nowSec: int, listed: bool, readable: string -> bool, removes: string -> bool)
      returns (r: Result<seq<Session>>, ghost ids: seq<string>, ghost spared: set<string>)
      modifies this
      ensures Lists(ids, DueIds(old(db), nowSec)) && db == PruneActive(old(db), nowSec, spared)
      ensures r.Ok? ==> r.value == FoundOpen(old(db), ids) && listed && forall id :: id in ids ==> readable(id)
      ensures r.Ok? ==> forall id :: id in spared ==> !removes(id)
      ensures r.Err? ==> ListingFailed(old(db), ids, listed, readable, r.error)
    {
      var before := db;
      var list := Elements(DueIds(db, nowSec));
      ids, spared := list, SparedClosed(db, list, removes, 0);
      NothingPrunedYet(before, "", nowSec, list, removes);
      if !listed {
        return Err(Unavailable), ids, spared;
      }
      var sessions := [];
      var i := 0;
      while i < |list|
        invariant 0 <= i <= |list|
        invariant forall j :: 0 <= j < i ==> readable(list[j])
        invariant sessions == FoundOpen(before, list[..i])
        invariant spared == SparedClosed(before, list, removes, i) && db == PruneActive(before, nowSec, spared)
      {
        var id := list[i];
        FoundNext(before, list, i);
        PruneScoreStep(before, nowSec, list, removes, i);
        if !readable(id) {
          return Err(Unavailable), ids, spared;
        }
        var found := GetSession(db, id);
        assert found == GetSession(before, id);
        match found {
          case Ok(s) =>
            if s.status != CLOSED {
              sessions := sessions + [s];
            } else if removes(id) {
              db := Exec(db, ActiveKey, ZRem(id));
            }
          case Err(SessionNotFound) =>
          case Err(e) => return Err(e), ids, spared;
        }
        i := i + 1;
        spared := SparedClosed(before, list, removes, i);
      }
      assert list[..|list|] == list;
      SparedAtTheEnd(before, list, removes);
      r := Ok(sessions);
    }
  }
}
