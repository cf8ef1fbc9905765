/**
 Retrying: the retry loop itself, and why running half a pipeline, any number of
 times, before the attempt that succeeds leaves no trace.
 */
module Retry {
  import opened Common
  import opened Redis
  import opened Keys
  import opened SessionStore

  // ---- the retry loop ----

  datatype Failure =
    | Infrastructure | ContextCanceled | DeadlineExceeded | RedisNil
    | NotFound | BadRoomCode | SessionIsClosed

  datatype Outcome = Success | Failed(failure: Failure)

  /** Not a success, not the context's end, and none of the answers the store gives itself. */
  predicate IsRetryable(o: Outcome) {
    match o
    case Success => false
    case Failed(f) =>
      !f.ContextCanceled? && !f.DeadlineExceeded? && !f.RedisNil?
      && !f.NotFound? && !f.BadRoomCode? && !f.SessionIsClosed?
  }

  function Pow2(n: nat): nat { if n == 0 then 1 else 2 * Pow2(n - 1) }

  /** The signed 64-bit value of an unbounded product. */
  function Wrap64(x: int): int {
    var m := x % SPAN64;
    if m < INT64_LIMIT then m else m - SPAN64
  }

  /** The pause after the attempt with this index. */
  function Backoff(base: int, attempt: nat): int { Wrap64(base * Pow2(attempt)) }

  function Sum(xs: seq<int>): int { if xs == [] then 0 else Sum(xs[..|xs| - 1]) + xs[|xs| - 1] }

  function Attempts(maxRetries: int): nat { if maxRetries < 1 then 1 else maxRetries }

  /** `op(i)` is the outcome of call i; `done(i)` is set when the context ends
      before the pause after call i is over. Only an infrastructure failure leads to a
      further call, and it does while attempts remain and the context is open; a success
      or any other failure is the last outcome and the result. */
  method RetryRedisOp(maxRetries: int, base: int, op: nat -> Outcome, done: nat -> Option<Failure>)
    returns (result: Outcome, calls: nat, pauses: seq<int>)
    ensures 1 <= calls && (calls == 1 || calls <= maxRetries)
    ensures forall i: nat :: i < calls - 1 ==> op(i) == Failed(Infrastructure) && done(i).None?
    ensures op(calls - 1) != Failed(Infrastructure) || maxRetries <= calls ==> result == op(calls - 1)
    ensures op(calls - 1) == Failed(Infrastructure) && calls < maxRetries ==>
              done(calls - 1).Some? && result == Failed(done(calls - 1).value)
    ensures op(0) == Success ==> calls == 1 && result == Success
    ensures result == Success <==> op(calls - 1) == Success
    ensures pauses == Pauses(base, calls - 1)
  {
    var n := Attempts(maxRetries);
    result, calls, pauses := op(0), 1, [];
    while IsRetryable(result) && calls < n
      invariant 1 <= calls <= n && result == op(calls - 1)
      invariant forall i: nat :: i < calls - 1 ==> IsRetryable(op(i)) && done(i).None?
      invariant pauses == Pauses(base, calls - 1)
    {
      if done(calls - 1).Some? {
        return Failed(done(calls - 1).value), calls, pauses;
      }
      pauses := pauses + [Backoff(base, calls - 1)];
      result, calls := op(calls), calls + 1;
    }
  }

  lemma PowStep(base: int, j: nat)
    requires j > 0
    ensures base * Pow2(j) == 2 * (base * Pow2(j - 1))
  {
    var p := Pow2(j - 1);
    assert Pow2(j) == 2 * p;
    assert base * (2 * p) == 2 * (base * p);
  }

  lemma {:induction false} PowGrows(base: int, i: nat, j: nat)
    requires base > 0 && i <= j
    ensures 0 < base * Pow2(i) <= base * Pow2(j)
    decreases j
  {
    if j == 0 {
      assert Pow2(0) == 1;
    } else {
      PowStep(base, j);
      if i < j {
        PowGrows(base, i, j - 1);
      } else {
        PowGrows(base, i - 1, j - 1);
      }
    }
  }

  /** Every pause of a full run is the intended power-of-two multiple exactly when
      the largest one fits in 64 bits. */
  lemma BackoffFitsExactly(base: int, attempts: nat)
    requires base > 0 && attempts >= 2
    ensures (forall i: nat :: i < attempts - 1 ==> Backoff(base, i) == base * Pow2(i))
        <==> base * Pow2(attempts - 2) < INT64_LIMIT
  {
    var last: nat := attempts - 2;
    PowGrows(base, last, last);
    if base * Pow2(last) < INT64_LIMIT {
      forall i: nat | i < attempts - 1 ensures Backoff(base, i) == base * Pow2(i) { PowGrows(base, i, last); }
    } else {
      assert Backoff(base, last) < INT64_LIMIT;
    }
  }

  function Pauses(base: int, n: nat): seq<int> { seq(n, i requires 0 <= i => Backoff(base, i)) }

  /** The pauses of a run of n + 1 calls add up to base * (2^n - 1). */
  lemma {:induction false} TotalPause(base: int, n: nat)
    requires base > 0 && (n >= 1 ==> base * Pow2(n - 1) < INT64_LIMIT)
    ensures Sum(Pauses(base, n)) == base * Pow2(n) - base
    decreases n
  {
    if n == 0 {
      assert base * Pow2(0) == base;
    } else {
      assert Pauses(base, n)[..n - 1] == Pauses(base, n - 1);
      BackoffFitsExactly(base, n + 1);
      if n >= 2 { PowGrows(base, n - 2, n - 1); }
      TotalPause(base, n - 1);
      PowStep(base, n);
    }
  }

  // ---- repeating a pipeline ----

  lemma WriteTwice(w: Action, ttl: nat, e: Option<Entry>, t: nat, a: nat)
    requires w.HSetRecord? || w.SAdd?
    ensures Effect(Expire(ttl), Effect(w, Effect(w, e, a), t), t) == Effect(Expire(ttl), Effect(w, e, t), t)
    ensures Effect(Expire(ttl), Effect(w, Effect(Expire(ttl), Effect(w, e, a), a), t), t)
         == Effect(Expire(ttl), Effect(w, e, t), t)
  {
    match e
    case Some(Entry(Record(h), _)) => if w.HSetRecord? { assert (h + w.fields) + w.fields == h + w.fields; }
    case Some(Entry(Members(ms), _)) => if w.SAdd? { assert (ms + {w.member}) + {w.member} == ms + {w.member}; }
    case None =>
      if w.HSetRecord? { assert w.fields + w.fields == w.fields; }
      if w.SAdd? { assert {w.member} + {w.member} == {w.member}; }
    case _ =>
  }

  /** A score written twice is the later one; an id removed twice is removed. */
  lemma IndexTwice(m: string, i: int, j: int, e: Option<Entry>, a: nat, t: nat)
    ensures Effect(ZAdd(m, j), Effect(ZAdd(m, i), e, a), t) == Effect(ZAdd(m, j), e, t)
    ensures Effect(ZRem(m), Effect(ZRem(m), e, a), t) == Effect(ZRem(m), e, t)
    ensures Effect(SRem(m), Effect(SRem(m), e, a), t) == Effect(SRem(m), e, t)
  {
    match e
    case Some(Entry(Scores(sc), _)) =>
      assert sc[m := i][m := j] == sc[m := j] && (sc - {m}) - {m} == sc - {m};
    case Some(Entry(Members(ms), _)) => assert (ms - {m}) - {m} == ms - {m};
    case _ => assert map[m := i][m := j] == map[m := j];
  }

  lemma StageAbsorbed(db: Db, s: Session, scored: nat, ttl: nat, stage: nat, d: Db, e: Db, scored': nat, k: Key)
    requires d.now == e.now && Get(e, k) == Get(db, k) && Get(d, k) == StageEntry(db, s, scored, ttl, stage, k)
    ensures StageEntry(d, s, scored', ttl, WHOLE, k) == StageEntry(e, s, scored', ttl, WHOLE, k)
  {
    var was := Get(db, k);
    match k
    case SessionKey(_) => WriteTwice(HSetRecord(Encode(s)), 1000 * ttl, was, d.now, db.now);
    case UserKey(_) => WriteTwice(SAdd(s.id), 1000 * ttl, was, d.now, db.now);
    case ActiveKey => IndexTwice(s.id, Score(scored, ttl), Score(scored', ttl), was, db.now, d.now);
    case _ =>
  }

  /** Repeating the create pipeline at time t, with a score of its own, wipes out what any
      prefix of it did at time a. */
  lemma CreateAbsorbs(db: Db, s: Session, scored: nat, ttl: nat, n: nat, t: nat, scored': nat)
    requires n <= |CreatePipeline(s, scored, ttl)|
    ensures Create(Space(CutCreate(db, s, scored, ttl, n).entries, t), s, scored', ttl)
         == Create(Space(db.entries, t), s, scored', ttl)
  {
    var d, e := Space(CutCreate(db, s, scored, ttl, n).entries, t), Space(db.entries, t);
    var x, y := Create(d, s, scored', ttl), Create(e, s, scored', ttl);
    forall k ensures x.now == y.now && SameAt(x, y, k) {
      CreateClosedForm(d, s, scored', ttl, k);
      CreateClosedForm(e, s, scored', ttl, k);
      CutCreateClosedForm(db, s, scored, ttl, n, k);
      StageAbsorbed(db, s, scored, ttl, Stage(s, n), d, e, scored', k);
    }
    assert SameAt(x, y, ActiveKey);
    SameSpace(x, y);
  }

  /** So does repeating the delete pipeline. */
  lemma DeleteAbsorbs(db: Db, s: Session, id: string, n: nat, t: nat)
    requires n <= |DeletePipeline(s, id)|
    ensures Run(Space(Run(db, DeletePipeline(s, id)[..n]).entries, t), DeletePipeline(s, id))
         == Run(Space(db.entries, t), DeletePipeline(s, id))
  {
    var d, e := Space(Run(db, DeletePipeline(s, id)[..n]).entries, t), Space(db.entries, t);
    var x, y := Run(d, DeletePipeline(s, id)), Run(e, DeletePipeline(s, id));
    forall k ensures x.now == y.now && SameAt(x, y, k) {
      DeleteClosedForm(d, s, id, k);
      DeleteClosedForm(e, s, id, k);
      CutDeleteClosedForm(db, s, id, n, k);
      assert Get(e, k) == Get(db, k) && Get(d, k) == DropEntry(db, s, id, n, k);
      IndexTwice(id, 0, 0, Get(db, k), db.now, t);
    }
    assert SameAt(x, y, ActiveKey);
    SameSpace(x, y);
  }

  // ---- any number of failed attempts ----

  /** One failed attempt: when it ran, when its score was computed, and how many of its
      commands took effect. */
  datatype Attempt = Attempt(at: nat, scored: nat, applied: nat)

  datatype Write = CreateOf(s: Session) | DeleteOf(s: Session, id: string)

  function PipelineOf(w: Write, scored: nat, ttl: nat): seq<Command<Key>> {
    match w
    case CreateOf(s) => CreatePipeline(s, scored, ttl)
    case DeleteOf(s, id) => DeletePipeline(s, id)
  }

  function Partial(db: Db, w: Write, ttl: nat, a: Attempt): Db {
    var p := PipelineOf(w, a.scored, ttl);
    Run(Advance(db, a.at), p[..if a.applied <= |p| then a.applied else |p|])
  }

  function AfterFailures(db: Db, w: Write, ttl: nat, failed: seq<Attempt>): Db
    decreases |failed|
  {
    if failed == [] then db else AfterFailures(Partial(db, w, ttl, failed[0]), w, ttl, failed[1..])
  }

  predicate NothingExpires(db: Db, t: nat) { forall k :: k in db.entries ==> Alive(db.entries[k], t) }

  /** The attempts are in time order, and what they wrote is still alive at `t`. */
  predicate InOrder(now: nat, failed: seq<Attempt>, ttl: nat, t: nat) {
    && (forall i :: 0 <= i < |failed| ==> now <= failed[i].at <= t < failed[i].at + 1000 * ttl)
    && (forall i, j :: 0 <= i < j < |failed| ==> failed[i].at <= failed[j].at)
  }

  lemma {:induction false} RunStaysAlive(db: Db, p: seq<Command<Key>>, t: nat)
    requires NothingExpires(db, t)
    requires forall c :: c in p ==>
               (c.action.Expire? || c.action.SetText? ==> c.action.ttl == 0 || t < db.now + c.action.ttl)
    ensures NothingExpires(Run(db, p), t) && Run(db, p).now == db.now
    decreases |p|
  {
    if p != [] {
      RunStaysAlive(db, p[..|p| - 1], t);
      assert p[|p| - 1] in p;
    }
  }

  lemma OneFailureAbsorbed(db: Db, w: Write, ttl: nat, a: Attempt, t: nat, scored: nat)
    requires db.now <= a.at <= t < a.at + 1000 * ttl && NothingExpires(db, t)
    ensures var d := Partial(db, w, ttl, a);
            && NothingExpires(d, t) && d.now == a.at
            && Run(Space(d.entries, t), PipelineOf(w, scored, ttl))
               == Run(Space(db.entries, t), PipelineOf(w, scored, ttl))
  {
    assert forall k :: k in db.entries ==> Alive(db.entries[k], a.at);
    assert Advance(db, a.at) == Space(db.entries, a.at);
    var p := PipelineOf(w, a.scored, ttl);
    var n := if a.applied <= |p| then a.applied else |p|;
    forall c | c in p[..n] ensures c.action.Expire? || c.action.SetText? ==> c.action.ttl == 1000 * ttl {}
    RunStaysAlive(Space(db.entries, a.at), p[..n], t);
    match w {
      case CreateOf(s) => CreateAbsorbs(Space(db.entries, a.at), s, a.scored, ttl, n, t, scored);
      case DeleteOf(s, id) => DeleteAbsorbs(Space(db.entries, a.at), s, id, n, t);
    }
  }

  /** Any number of attempts that each applied only a prefix of the create or the
      delete pipeline, followed by one complete attempt at `t`, leave the store that
      the last attempt alone would have left, as long as no key expires meanwhile. */
  lemma {:induction false} RetriesLeaveNoTrace(db: Db, w: Write, ttl: nat, failed: seq<Attempt>, t: nat, scored: nat)
    requires db.now <= t && NothingExpires(db, t) && InOrder(db.now, failed, ttl, t)
    ensures Run(Advance(AfterFailures(db, w, ttl, failed), t), PipelineOf(w, scored, ttl))
         == Run(Advance(db, t), PipelineOf(w, scored, ttl))
    decreases |failed|
  {
    assert Advance(db, t) == Space(db.entries, t);
    if failed != [] {
      var d := Partial(db, w, ttl, failed[0]);
      OneFailureAbsorbed(db, w, ttl, failed[0], t, scored);
      RetriesLeaveNoTrace(d, w, ttl, failed[1..], t, scored);
      assert Advance(d, t) == Space(d.entries, t);
    }
  }
}
