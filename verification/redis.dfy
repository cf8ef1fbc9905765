/**
 The part of Redis that the session store relies on: a map from keys to typed
 values with expiry times, and the commands the store sends.

 Time is in milliseconds. An entry whose expiry has been reached is removed when
 the clock advances; no command can tell this from Redis' lazy removal.
 */
module Redis {
  import opened Common

  /** The fields of the session hash. */
  datatype Field = FId | FRoomCode | FCreatedBy | FCreatedAt | FMaxCameras | FStatus

  datatype Value =
    | Record(fields: map<Field, string>)  // the session hash
    | Roles(roles: map<string, string>)   // the access hash, user to role
    | Text(text: string)                  // a plain string
    | Members(members: set<string>)       // a set
    | Scores(scores: map<string, int>)    // a sorted set

  datatype Expiry = Never | At(ms: nat) {
    predicate NotBefore(other: Expiry) {
      Never? || (other.At? && other.ms <= ms)
    }
  }

  datatype Entry = Entry(value: Value, expiry: Expiry)

  datatype Space<K(==)> = Space(entries: map<K, Entry>, now: nat)

  datatype Action =
    | HSetRecord(fields: map<Field, string>)
    | HSetRole(user: string, role: string)
    | HDelRole(user: string)
    | Expire(ttl: nat)
    | SetText(text: string, ttl: nat)
    | SAdd(member: string)
    | SRem(member: string)
    | ZAdd(member: string, score: int)
    | ZRem(member: string)
    | Del

  predicate Alive(e: Entry, now: nat) {
    e.expiry.Never? || now < e.expiry.ms
  }

  function Get<K>(s: Space<K>, k: K): Option<Entry> {
    if k in s.entries then Some(s.entries[k]) else None
  }

  /** A collection that becomes empty is removed with its key. */
  function KeepMembers(members: set<string>, expiry: Expiry): Option<Entry> {
    if members == {} then None else Some(Entry(Members(members), expiry))
  }

  function KeepScores(scores: map<string, int>, expiry: Expiry): Option<Entry> {
    if scores == map[] then None else Some(Entry(Scores(scores), expiry))
  }

  function KeepRoles(roles: map<string, string>, expiry: Expiry): Option<Entry> {
    if roles == map[] then None else Some(Entry(Roles(roles), expiry))
  }

  /** What one command makes of the entry under its key. A command sent to a value
      of another type answers WRONGTYPE and changes nothing. */
  function Effect(a: Action, e: Option<Entry>, now: nat): Option<Entry> {
    match a
    case HSetRecord(fields) => (
      match e
      case None => Some(Entry(Record(fields), Never))
      case Some(Entry(Record(had), x)) => Some(Entry(Record(had + fields), x))
      case _ => e)
    case HSetRole(user, role) => (
      match e
      case None => Some(Entry(Roles(map[user := role]), Never))
      case Some(Entry(Roles(had), x)) => Some(Entry(Roles(had[user := role]), x))
      case _ => e)
    case HDelRole(user) => (
      match e
      case Some(Entry(Roles(had), x)) => KeepRoles(had - {user}, x)
      case _ => e)
    case Expire(ttl) => (
      match e
      case None => None
      case Some(Entry(v, _)) => if ttl == 0 then None else Some(Entry(v, At(now + ttl))))
    case SetText(text, ttl) =>
      Some(Entry(Text(text), if ttl == 0 then Never else At(now + ttl)))
    case SAdd(member) => (
      match e
      case None => Some(Entry(Members({member}), Never))
      case Some(Entry(Members(had), x)) => Some(Entry(Members(had + {member}), x))
      case _ => e)
    case SRem(member) => (
      match e
      case Some(Entry(Members(had), x)) => KeepMembers(had - {member}, x)
      case _ => e)
    case ZAdd(member, score) => (
      match e
      case None => Some(Entry(Scores(map[member := score]), Never))
      case Some(Entry(Scores(had), x)) => Some(Entry(Scores(had[member := score]), x))
      case _ => e)
    case ZRem(member) => (
      match e
      case Some(Entry(Scores(had), x)) => KeepScores(had - {member}, x)
      case _ => e)
    case Del => None
  }

  function Put<K>(entries: map<K, Entry>, k: K, e: Option<Entry>): map<K, Entry> {
    match e
    case None => entries - {k}
    case Some(entry) => entries[k := entry]
  }

  function Exec<K>(s: Space<K>, k: K, a: Action): Space<K> {
    Space(Put(s.entries, k, Effect(a, Get(s, k), s.now)), s.now)
  }

  /** The clock reaches `t`; entries whose time is up disappear. */
  function Advance<K>(s: Space<K>, t: nat): Space<K> {
    if t < s.now then s
    else Space(map k | k in s.entries && Alive(s.entries[k], t) :: s.entries[k], t)
  }

  datatype Command<K> = Command(key: K, action: Action)

  function Run<K>(s: Space<K>, p: seq<Command<K>>): Space<K> {
    if p == [] then s
    else
      var last := |p| - 1;
      Exec(Run(s, p[..last]), p[last].key, p[last].action)
  }
}
