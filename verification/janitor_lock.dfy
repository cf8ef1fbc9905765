/**
 The janitor's sweep lock, SET NX with a TTL, released by compare-and-delete on the
 process's instance id: any processes and goroutines interleave with the clock.
 */
module JanitorLock {

  /** One goroutine: `instance` is the process's lock value, `loop` tells Run from
      WatchStore. */
  datatype Sweeper = Sweeper(instance: nat, loop: nat)

  datatype Lock = Free | Held(owner: nat, until: nat)

  /** `running` maps each sweeper between acquire and release to its acquire time;
      `late` are the instances that have had a sweep running past its TTL. */
  datatype State = State(now: nat, lock: Lock, running: map<Sweeper, nat>, late: set<nat>)

  datatype Step =
    | Acquire(s: Sweeper)
    | AcquireReplyLost(s: Sweeper)  // the lock is set but the caller sees an error
    | Release(s: Sweeper)
    | ReleaseLost(s: Sweeper)       // the script never ran, or the process died
    | Tick(t: nat)

  predicate Live(st: State) { st.lock.Held? && st.now < st.lock.until }

  predicate Overrun(st: State, ttl: nat, s: Sweeper) {
    s in st.running && st.running[s] + ttl <= st.now
  }

  function Next(st: State, ttl: nat, step: Step): State {
    match step
    case Acquire(s) =>
      if Live(st) || s in st.running then st
      else st.(lock := Held(s.instance, st.now + ttl), running := st.running[s := st.now])
    case AcquireReplyLost(s) =>
      if Live(st) || s in st.running then st else st.(lock := Held(s.instance, st.now + ttl))
    case Release(s) =>
      if s !in st.running then st
      else st.(running := st.running - {s},
               lock := if Live(st) && st.lock.owner == s.instance then Free else st.lock)
    case ReleaseLost(s) =>
      st.(running := st.running - {s})
    case Tick(t) =>
      if t < st.now then st
      else st.(now := t,
               late := st.late + set s | s in st.running && st.running[s] + ttl <= t :: s.instance)
  }

  function Run(st: State, ttl: nat, steps: seq<Step>): State {
    if steps == [] then st else Next(Run(st, ttl, steps[..|steps| - 1]), ttl, steps[|steps| - 1])
  }

  function Start(now: nat): State { State(now, Free, map[], {}) }

  /** A sweep whose instance has never been late owns the live lock, and any two
      running sweeps include one whose instance has been late. */
  ghost predicate Inv(st: State, ttl: nat) {
    && (forall s :: s in st.running && s.instance !in st.late ==>
          st.now < st.running[s] + ttl && st.lock == Held(s.instance, st.running[s] + ttl))
    && (forall s, s' :: s in st.running && s' in st.running && s != s' ==>
          s.instance in st.late || s'.instance in st.late)
  }

  lemma NextKeeps(st: State, ttl: nat, step: Step)
    requires Inv(st, ttl) && ttl > 0
    ensures Inv(Next(st, ttl, step), ttl)
  {
    var st' := Next(st, ttl, step);
    match step
    case Tick(t) =>
      forall s | s in st'.running && s.instance !in st'.late ensures st'.now < st'.running[s] + ttl {
        assert t >= st.now && st.running[s] + ttl <= t ==> s.instance in st'.late;
      }
    case _ =>
  }

  lemma {:induction false} RunKeeps(now: nat, ttl: nat, steps: seq<Step>)
    requires ttl > 0
    ensures Inv(Run(Start(now), ttl, steps), ttl)
    decreases |steps|
  {
    if steps != [] {
      RunKeeps(now, ttl, steps[..|steps| - 1]);
      NextKeeps(Run(Start(now), ttl, steps[..|steps| - 1]), ttl, steps[|steps| - 1]);
    }
  }

  /** At some point of the run a sweep of this instance was past its TTL. */
  ghost predicate HadOverrun(now: nat, ttl: nat, steps: seq<Step>, instance: nat) {
    exists i, x :: 0 <= i <= |steps| && Overrun(Run(Start(now), ttl, steps[..i]), ttl, x) && x.instance == instance
  }

  lemma {:induction false} LateMeansOverrun(now: nat, ttl: nat, steps: seq<Step>, instance: nat)
    requires instance in Run(Start(now), ttl, steps).late
    ensures HadOverrun(now, ttl, steps, instance)
    decreases |steps|
  {
    if steps == [] {
      assert false;
    } else {
      var last := |steps| - 1;
      var prev := Run(Start(now), ttl, steps[..last]);
      assert steps[..|steps|] == steps;
      if instance in prev.late {
        LateMeansOverrun(now, ttl, steps[..last], instance);
        var i, x: Sweeper :| 0 <= i <= last && x.instance == instance
                    && Overrun(Run(Start(now), ttl, steps[..last][..i]), ttl, x);
        assert steps[..last][..i] == steps[..i];
      } else {
        var x :| x in prev.running && x.instance == instance && prev.running[x] + ttl <= steps[last].t;
        assert Overrun(Run(Start(now), ttl, steps[..|steps|]), ttl, x);
      }
    }
  }

  /** In every interleaving: two sweeps are between acquire and release together only
      if one of their two processes has had a sweep run past its TTL. */
  lemma OverlapNeedsAnOverrun(now: nat, ttl: nat, steps: seq<Step>, s: Sweeper, s': Sweeper)
    requires ttl > 0 && s != s'
    requires s in Run(Start(now), ttl, steps).running && s' in Run(Start(now), ttl, steps).running
    ensures HadOverrun(now, ttl, steps, s.instance) || HadOverrun(now, ttl, steps, s'.instance)
  {
    RunKeeps(now, ttl, steps);
    if s.instance in Run(Start(now), ttl, steps).late {
      LateMeansOverrun(now, ttl, steps, s.instance);
    } else {
      LateMeansOverrun(now, ttl, steps, s'.instance);
    }
  }

  /** So when every sweep releases within its TTL at most one runs at a time. */
  lemma ExclusiveWhenPunctual(now: nat, ttl: nat, steps: seq<Step>)
    requires ttl > 0
    requires forall i, x :: 0 <= i <= |steps| ==> !Overrun(Run(Start(now), ttl, steps[..i]), ttl, x)
    ensures |Run(Start(now), ttl, steps).running| <= 1
  {
    var running := Run(Start(now), ttl, steps).running;
    if |running| > 1 {
      var s :| s in running;
      assert |running.Keys - {s}| == |running| - 1;
      var s' :| s' in running.Keys - {s};
      OverlapNeedsAnOverrun(now, ttl, steps, s, s');
    }
  }

  // ---- who gets the lock ----

  /** How a sweep that took the lock may leave it: still running, released in time, its
      process dead, or its acquire answered with an error. */
  datatype Ending = StillRunning | Released | Died | ReplyLost

  function Before(a: Sweeper, e: Ending): seq<Step> {
    match e
    case StillRunning => [Acquire(a)]
    case Released => [Acquire(a), Release(a)]
    case Died => [Acquire(a), ReleaseLost(a)]
    case ReplyLost => [AcquireReplyLost(a)]
  }

  lemma AfterFirst(now: nat, ttl: nat, a: Sweeper, e: Ending)
    requires ttl > 0
    ensures Run(Start(now), ttl, Before(a, e))
         == State(now, if e.Released? then Free else Held(a.instance, now + ttl),
                  if e.StillRunning? then map[a := now] else map[], {})
  {
    var first := if e.ReplyLost? then AcquireReplyLost(a) else Acquire(a);
    RunSnoc(Start(now), ttl, [], first);
    assert [] + [first] == [first];
    if e.Released? || e.Died? {
      var second := if e.Released? then Release(a) else ReleaseLost(a);
      RunSnoc(Start(now), ttl, [first], second);
      assert [first] + [second] == Before(a, e) && map[a := now] - {a} == map[];
    }
  }

  /** A sweep of `a` takes the lock at `now`; at `t` a sweeper of another process tries. It
      runs if and only if the first released the lock or its TTL is over; if it runs, it
      owns the lock for a TTL, and the first one's release no longer frees it. */
  lemma LockPassesOnExactly(now: nat, ttl: nat, a: Sweeper, e: Ending, t: nat, b: Sweeper)
    requires ttl > 0 && now <= t && a.instance != b.instance
    ensures var st := Run(Start(now), ttl, Before(a, e) + [Tick(t)] + [Acquire(b)]);
            && (b in st.running <==> e.Released? || now + ttl <= t)
            && (b in st.running ==> st.lock == Held(b.instance, t + ttl)
                                    && Next(st, ttl, Release(a)).lock == Held(b.instance, t + ttl)
                                    && Next(st, ttl, Release(b)).lock.Free?)
            && (b !in st.running ==> st.lock == Held(a.instance, now + ttl))
            && (a in st.running <==> e.StillRunning?)
  {
    AfterFirst(now, ttl, a, e);
    RunSnoc(Start(now), ttl, Before(a, e), Tick(t));
    RunSnoc(Start(now), ttl, Before(a, e) + [Tick(t)], Acquire(b));
  }

  // ---- the shared instance id ----

  /** The overrun may belong to neither of the two overlapping sweeps, and one process is
      enough: a late goroutine releases the lock its sibling holds, and sweeps again. */
  lemma SiblingReleasesTheLock(ttl: nat, a: Sweeper, sibling: Sweeper)
    requires ttl > 0 && a != sibling && a.instance == sibling.instance
    ensures var st := Run(Start(0), ttl, SiblingRun(ttl, a, sibling));
            && sibling in st.running && a in st.running
            && !Overrun(st, ttl, sibling) && !Overrun(st, ttl, a)
  {
    LateButRunning(ttl, a, sibling);
    var p := [Acquire(a), Tick(ttl), Acquire(sibling)];
    RunSnoc(Start(0), ttl, p, Release(a));
    RunSnoc(Start(0), ttl, p + [Release(a)], Acquire(a));
    assert p + [Release(a)] + [Acquire(a)] == SiblingRun(ttl, a, sibling);
    assert Run(Start(0), ttl, p + [Release(a)]) == State(ttl, Free, map[sibling := ttl], {a.instance});
  }

  /** a's sweep outlasts its lock, and its sibling takes the lock. */
  lemma LateButRunning(ttl: nat, a: Sweeper, sibling: Sweeper)
    requires ttl > 0 && a != sibling && a.instance == sibling.instance
    ensures Run(Start(0), ttl, [Acquire(a), Tick(ttl), Acquire(sibling)])
         == State(ttl, Held(a.instance, ttl + ttl), map[a := 0, sibling := ttl], {a.instance})
  {
    RunSnoc(Start(0), ttl, [], Acquire(a));
    RunSnoc(Start(0), ttl, [Acquire(a)], Tick(ttl));
    RunSnoc(Start(0), ttl, [Acquire(a), Tick(ttl)], Acquire(sibling));
    assert [] + [Acquire(a)] == [Acquire(a)] && [Acquire(a)] + [Tick(ttl)] == [Acquire(a), Tick(ttl)];
    assert [Acquire(a), Tick(ttl)] + [Acquire(sibling)] == [Acquire(a), Tick(ttl), Acquire(sibling)];
    assert Run(Start(0), ttl, [Acquire(a)]) == State(0, Held(a.instance, ttl), map[a := 0], {});
    assert Run(Start(0), ttl, [Acquire(a), Tick(ttl)]) == State(ttl, Held(a.instance, ttl), map[a := 0], {a.instance});
  }

  function SiblingRun(ttl: nat, a: Sweeper, sibling: Sweeper): seq<Step> {
    [Acquire(a), Tick(ttl), Acquire(sibling), Release(a), Acquire(a)]
  }

  lemma RunSnoc(st: State, ttl: nat, p: seq<Step>, x: Step)
    ensures Run(st, ttl, p + [x]) == Next(Run(st, ttl, p), ttl, x)
  {
    assert (p + [x])[..|p|] == p;
  }

  /** Every step is the clock's or that of a sweeper of S. */
  predicate Over(steps: seq<Step>, S: set<Sweeper>) {
    forall i :: 0 <= i < |steps| ==> steps[i].Tick? || steps[i].s in S
  }

  predicate DistinctInstances(S: set<Sweeper>) {
    forall s, s' :: s in S && s' in S && s.instance == s'.instance ==> s == s'
  }

  /** A running sweep is past its TTL or owns the lock until then. */
  ghost predicate OwnerInv(st: State, ttl: nat, S: set<Sweeper>) {
    forall s :: s in st.running ==>
      s in S && (Overrun(st, ttl, s) || st.lock == Held(s.instance, st.running[s] + ttl))
  }

  lemma {:induction false} OwnersKeep(now: nat, ttl: nat, steps: seq<Step>, S: set<Sweeper>)
    requires ttl > 0 && Over(steps, S) && DistinctInstances(S)
    ensures OwnerInv(Run(Start(now), ttl, steps), ttl, S)
    decreases |steps|
  {
    if steps != [] {
      var last := |steps| - 1;
      OwnersKeep(now, ttl, steps[..last], S);
      assert steps[last].Tick? || steps[last].s in S;
      var prev := Run(Start(now), ttl, steps[..last]);
      forall s | s in Run(Start(now), ttl, steps).running && s in prev.running
        ensures Overrun(prev, ttl, s) || prev.lock == Held(s.instance, prev.running[s] + ttl)
      {}
    }
  }

  /** In every run over S two sweeps overlap only while one of the two is late. */
  ghost predicate OverlapsAreLate(ttl: nat, S: set<Sweeper>) {
    forall now: nat, steps, s, s' :: Over(steps, S) && s != s'
      && s in Run(Start(now), ttl, steps).running && s' in Run(Start(now), ttl, steps).running
      ==> Overrun(Run(Start(now), ttl, steps), ttl, s) || Overrun(Run(Start(now), ttl, steps), ttl, s')
  }

  /** Overlaps always contain a late sweep exactly when no two sweepers share a lock
      value. */
  lemma OverlapsAreLateExactly(ttl: nat, S: set<Sweeper>)
    requires ttl > 0
    ensures OverlapsAreLate(ttl, S) <==> DistinctInstances(S)
  {
    if DistinctInstances(S) {
      forall now: nat, steps, s, s' | Over(steps, S) && s != s'
        && s in Run(Start(now), ttl, steps).running && s' in Run(Start(now), ttl, steps).running
        ensures Overrun(Run(Start(now), ttl, steps), ttl, s) || Overrun(Run(Start(now), ttl, steps), ttl, s')
      {
        OwnersKeep(now, ttl, steps, S);
      }
    } else {
      var a, sibling :| a in S && sibling in S && a.instance == sibling.instance && a != sibling;
      SiblingReleasesTheLock(ttl, a, sibling);
      assert Over(SiblingRun(ttl, a, sibling), S);
    }
  }
}
