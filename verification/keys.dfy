/**
 The flat string keys of the store. The other modules name keys by a datatype;
 this module proves that naming them by the store's concatenated strings is the
 same thing, as long as session ids contain no colon.
 */
module Keys {
  import opened Common
  import opened Redis

  datatype Key =
    | SessionKey(id: string)
    | AccessKey(id: string)
    | IngressKey(id: string)
    | RoomKey(code: string)
    | UserKey(user: string)
    | ActiveKey
    | LockKey

  function Render(k: Key): string {
    match k
    case SessionKey(id) => "session:" + id
    case AccessKey(id) => "session:" + id + ":access"
    case IngressKey(id) => "session:" + id + ":ingress_ids"
    case RoomKey(code) => "roomcode:" + code
    case UserKey(user) => "user:" + user + ":sessions"
    case ActiveKey => "sessions:active"
    case LockKey => "janitor:lock"
  }

  predicate ColonFree(s: string) { ':' !in s }

  predicate Proper(k: Key) {
    (k.SessionKey? || k.AccessKey? || k.IngressKey?) ==> ColonFree(k.id)
  }

  lemma SameTail(prefix: string, a: string, b: string)
    requires prefix + a == prefix + b
    ensures a == b
  {
    assert a == (prefix + a)[|prefix|..];
    assert b == (prefix + b)[|prefix|..];
  }

  lemma SameHead(a: string, b: string, suffix: string)
    requires a + suffix == b + suffix
    ensures a == b
  {
    assert |a| == |b|;
    assert a == (a + suffix)[..|a|];
    assert b == (b + suffix)[..|b|];
  }

  /** The part of a session-scoped key after "session:". */
  function Tail(k: Key): string
    requires k.SessionKey? || k.AccessKey? || k.IngressKey?
  {
    match k
    case SessionKey(id) => id
    case AccessKey(id) => id + ":access"
    case IngressKey(id) => id + ":ingress_ids"
  }

  function Initial(k: Key): char {
    match k
    case RoomKey(_) => 'r'
    case UserKey(_) => 'u'
    case LockKey => 'j'
    case _ => 's'
  }

  lemma RenderStarts(k: Key)
    ensures |Render(k)| > 0 && Render(k)[0] == Initial(k)
    ensures Initial(k) == 's' ==> |Render(k)| > 7 && Render(k)[7] == if k.ActiveKey? then 's' else ':'
    ensures k.SessionKey? || k.AccessKey? || k.IngressKey? ==> Render(k) == "session:" + Tail(k)
  {
  }

  /** A session id that is another id with the suffix of one of its keys. */
  predicate Extends(a: Key, b: Key) {
    a.SessionKey?
    && ((b.AccessKey? && a.id == b.id + ":access") || (b.IngressKey? && a.id == b.id + ":ingress_ids"))
  }

  lemma TailsCollide(a: Key, b: Key)
    requires (a.SessionKey? || a.AccessKey? || a.IngressKey?) && (b.SessionKey? || b.AccessKey? || b.IngressKey?)
    ensures Tail(a) == Tail(b) <==> a == b || Extends(a, b) || Extends(b, a)
  {
    if Tail(a) == Tail(b) && !a.SessionKey? && !b.SessionKey? {
      var s, n := Tail(a), |Tail(a)|;
      assert s[n - 3] == (if a.AccessKey? then 'e' else 'i') && s[n - 3] == (if b.AccessKey? then 'e' else 'i');
      SameHead(a.id, b.id, if a.AccessKey? then ":access" else ":ingress_ids");
    }
  }

  /** Without the colon rule two different keys collide exactly when one is the session
      hash of an id that is the other's id with its suffix. */
  lemma CollisionExactly(a: Key, b: Key)
    ensures Render(a) == Render(b) <==> a == b || Extends(a, b) || Extends(b, a)
  {
    RenderStarts(a);
    RenderStarts(b);
    if (a.SessionKey? || a.AccessKey? || a.IngressKey?) && (b.SessionKey? || b.AccessKey? || b.IngressKey?) {
      TailsCollide(a, b);
      if Render(a) == Render(b) { SameTail("session:", Tail(a), Tail(b)); }
    } else if Render(a) == Render(b) {
      match a {
        case RoomKey(code) => SameTail("roomcode:", code, b.code);
        case UserKey(user) =>
          SameHead("user:" + user, "user:" + b.user, ":sessions");
          SameTail("user:", user, b.user);
        case _ =>
      }
    }
  }

  /** The concatenations never collide for ids without a colon: two keys with the same
      text are the same key. */
  lemma RenderInjective(a: Key, b: Key)
    requires Proper(a) && Proper(b)
    requires Render(a) == Render(b)
    ensures a == b
  {
    CollisionExactly(a, b);
  }

  /** A flat string-keyed space stores the same thing as a space over `Key`. */
  ghost predicate Represents(flat: Space<string>, s: Space<Key>) {
    && flat.now == s.now
    && (forall k :: k in s.entries ==>
          Proper(k) && Render(k) in flat.entries && flat.entries[Render(k)] == s.entries[k])
    && (forall t :: t in flat.entries ==> exists k :: k in s.entries && Render(k) == t)
  }

  lemma GetAgrees(flat: Space<string>, s: Space<Key>, k: Key)
    requires Represents(flat, s) && Proper(k)
    ensures Get(flat, Render(k)) == Get(s, k)
  {
    if Render(k) in flat.entries {
      var k' :| k' in s.entries && Render(k') == Render(k);
      RenderInjective(k, k');
    }
  }

  lemma ExecAgrees(flat: Space<string>, s: Space<Key>, k: Key, a: Action)
    requires Represents(flat, s) && Proper(k)
    ensures Represents(Exec(flat, Render(k), a), Exec(s, k, a))
  {
    GetAgrees(flat, s, k);
    var flat', s' := Exec(flat, Render(k), a), Exec(s, k, a);
    forall j | j in s'.entries
      ensures Proper(j) && Render(j) in flat'.entries && flat'.entries[Render(j)] == s'.entries[j]
    {
      if Render(j) == Render(k) { RenderInjective(j, k); }
    }
    forall t | t in flat'.entries
      ensures exists j :: j in s'.entries && Render(j) == t
    {
      if t == Render(k) {
        assert k in s'.entries;
      } else {
        var j :| j in s.entries && Render(j) == t;
        assert j in s'.entries;
      }
    }
  }

  lemma AdvanceAgrees(flat: Space<string>, s: Space<Key>, t: nat)
    requires Represents(flat, s)
    ensures Represents(Advance(flat, t), Advance(s, t))
  {
    var flat', s' := Advance(flat, t), Advance(s, t);
    forall x | x in flat'.entries
      ensures exists j :: j in s'.entries && Render(j) == x
    {
      var j :| j in s.entries && Render(j) == x;
      assert j in s'.entries;
    }
  }

  /** What the outside world does to Redis: commands under rendered keys, and time. */
  datatype Event = Sent(key: Key, action: Action) | Elapsed(t: nat)

  function PlayFlat(flat: Space<string>, es: seq<Event>): Space<string>
    decreases |es|
  {
    if es == [] then flat
    else match es[0]
         case Sent(k, a) => PlayFlat(Exec(flat, Render(k), a), es[1..])
         case Elapsed(t) => PlayFlat(Advance(flat, t), es[1..])
  }

  function Play(s: Space<Key>, es: seq<Event>): Space<Key>
    decreases |es|
  {
    if es == [] then s
    else match es[0]
         case Sent(k, a) => Play(Exec(s, k, a), es[1..])
         case Elapsed(t) => Play(Advance(s, t), es[1..])
  }

  /** Every history of commands and clock ticks leaves the flat space and the
      structured one in agreement, so everything proved about the latter holds of
      the strings in Redis. */
  lemma {:induction false} FlatSpaceIsFaithful(flat: Space<string>, s: Space<Key>, es: seq<Event>)
    requires Represents(flat, s)
    requires forall e :: e in es && e.Sent? ==> Proper(e.key)
    ensures Represents(PlayFlat(flat, es), Play(s, es))
    decreases |es|
  {
    if es != [] {
      assert es[0] in es;
      match es[0]
      case Sent(k, a) =>
        ExecAgrees(flat, s, k, a);
        FlatSpaceIsFaithful(Exec(flat, Render(k), a), Exec(s, k, a), es[1..]);
      case Elapsed(t) =>
        AdvanceAgrees(flat, s, t);
        FlatSpaceIsFaithful(Advance(flat, t), Advance(s, t), es[1..]);
    }
  }
}
