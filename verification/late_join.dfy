/**
 A camera's JoinSession with other requests between its lookup and the rest: what is left
 when the session is closed in that gap.
 */
module LateJoins {
  import opened Common
  import opened Redis
  import opened Keys
  import opened SessionStore
  import opened StoreIndex
  import opened Signaling
  import opened Histories
  import opened Sweeping

  /** A join whose session is closed after the lookup goes through. */
  lemma JoinOfStored(w: World, s: Session, t: Session, user: string, ing: string)
    requires WInv(w) && Carries(w.store, t, t.roomCode) && t.id == s.id && ing !in w.owners
    ensures var (w', reply) := JoinAsCamera(w, s, user, "camera", ing, CLEAN_JOIN);
            && WInv(w') && reply == CameraAdmitted(s.id, ing) && Stored(w'.store.db, t)
            && ing in w'.ingresses && w'.ingresses[ing] == s.id && w'.leaked == w.leaked
  {
    CameraJoin(w, t, user, "camera", ing, CLEAN_JOIN);
    assert JoinAsCamera(w, s, user, "camera", ing, CLEAN_JOIN) == JoinAsCamera(w, t, user, "camera", ing, CLEAN_JOIN);
  }

  /** The lookup finds `s` open; then any run of requests is served; then the join goes on,
      without a failing call. It is admitted exactly when the record is still there, and
      leaves an ingress of a closed session exactly when the session was closed meanwhile. */
  lemma LateJoinExactly(w: World, rs: seq<Request>, s: Session, user: string, ing: string)
    requires WInv(w) && LegalRun(w, rs) && Carries(w.store, s, s.roomCode) && ing !in Serve(w, rs).owners
    ensures var w1 := Serve(w, rs);
            var (w', reply) := JoinAsCamera(w1, s, user, "camera", ing, CLEAN_JOIN);
            && WInv(w')
            && (reply == CameraAdmitted(s.id, ing) <==> Get(w1.store.db, SessionKey(s.id)).Some?)
            && (ing in w'.ingresses <==> Get(w1.store.db, SessionKey(s.id)).Some?)
            && (ing in w'.ingresses && IsClosed(w'.store.db, s.id) <==> IsClosed(w1.store.db, s.id))
            && (ing in w'.ingresses ==> w'.ingresses[ing] == s.id && w'.leaked == w1.leaked)
  {
    assert Known(w.store, s.id);
    ServeKeeps(w, rs);
    var w1 := Serve(w, rs);
    assert Indexed(w1.store, s.id);
    if Get(w1.store.db, SessionKey(s.id)).None? {
      RollbackTracked(w1, s.id, ing);
      assert Tracked(w1, ing);
    } else {
      JoinOfStored(w1, s, GetSession(w1.store.db, s.id).value, user, ing);
    }
  }

  /** Nothing but another CloseSession by the creator deletes an ingress of a session that
      is closed or gone: a sweep passes it over. */
  lemma RetiredIngressStep(w: World, r: Request, id: string, ing: string)
    requires WInv(w) && Possible(w, r) && Retired(w, id) && !ClosesIt(w, r, id)
    ensures KeepsIngress(w, Handle(w, r).0, id, ing)
  {
    match r
    case CreateSession(_, _, _, _, _, _, _, _) => CreateRequestView(w, r);
    case JoinSession(_, _, _, _, _) => JoinEffect(w, r);
    case CloseSession(_, _, _, _) => CloseRequestSpares(w, r, id, ing);
    case Sweep(_, _, _) => SweepSpares(w, r, id, ing);
    case _ =>
  }

  /** Over every run: it stays unless some request of the run was such a CloseSession, and
      one in which no call fails deletes it (Sweeping.CleanCloseLeavesOnlyLeaks). */
  lemma {:induction false} RetiredIngressStays(w: World, rs: seq<Request>, id: string, ing: string)
    requires WInv(w) && LegalRun(w, rs) && Retired(w, id)
    requires forall i :: 0 <= i < |rs| ==> !ClosesIt(Serve(w, rs[..i]), rs[i], id)
    ensures KeepsIngress(w, Serve(w, rs), id, ing)
    decreases |rs|
  {
    if rs != [] {
      var w1 := Handle(w, rs[0]).0;
      assert rs[..0] == [];
      HandleKeeps(w, rs[0]);
      RetiredStep(w, rs[0], id);
      RetiredIngressStep(w, rs[0], id, ing);
      forall i | 0 <= i < |rs| - 1 ensures !ClosesIt(Serve(w1, rs[1..][..i]), rs[1..][i], id) {
        ServeShift(w, rs, i);
        assert rs[1..][i] == rs[i + 1];
      }
      RetiredIngressStays(w1, rs[1..], id, ing);
    }
  }
}
