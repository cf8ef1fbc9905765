/**
 Room codes: how the server prints and picks them, and how the client's text field
 normalises what the user types.
 */
module RoomCode {
  import opened Common
  import opened Decimals
  import opened Redis
  import opened Keys
  import opened SessionStore
  import opened RedisStoreObject

  // ---- printing ----

  /** The last `k` decimal digits, zero padded. */
  function Padded(n: nat, k: nat): (s: string)
    ensures |s| == k
  {
    if k == 0 then [] else Padded(n / 10, k - 1) + [Digit(n % 10)]
  }

  function Print(n: nat): string { "ROOM-" + Padded(n, 6) }

  function Pow10(k: nat): nat { if k == 0 then 1 else 10 * Pow10(k - 1) }

  /** The padded text is the number in decimal, most significant digit first. */
  lemma {:induction false} PaddedReadsBack(n: nat, k: nat)
    requires n < Pow10(k)
    ensures Number(Padded(n, k)) == Some(n)
    decreases k
  {
    if k > 0 {
      PaddedReadsBack(n / 10, k - 1);
      NumberAppend(Padded(n / 10, k - 1), n % 10);
    }
  }

  lemma {:induction false} PaddedIsClean(n: nat, k: nat)
    ensures forall i :: 0 <= i < k ==> '0' <= Padded(n, k)[i] <= '9'
    decreases k
  {
    if k > 0 { PaddedIsClean(n / 10, k - 1); }
  }

  /** A number below a million prints as "ROOM-" and six digits that read back as the
      number; so different numbers print as different codes. */
  lemma PrintInjective(m: nat, n: nat)
    requires m < 1_000_000 && n < 1_000_000
    ensures |Print(m)| == 11 && Print(m)[..5] == "ROOM-" && Number(Print(m)[5..]) == Some(m)
    ensures Print(m) == Print(n) <==> m == n
  {
    PaddedReadsBack(m, 6);
    PaddedReadsBack(n, 6);
    assert Print(m)[5..] == Padded(m, 6) && Print(n)[5..] == Padded(n, 6);
  }

  // ---- the text field ----

  predicate IsAlnum(c: char) { 'A' <= c <= 'Z' || 'a' <= c <= 'z' || '0' <= c <= '9' }

  function Upper(c: char): char {
    if 'a' <= c <= 'z' then (c as int - 32) as char else c
  }

  /** The alphanumerics of a text, in upper case. */
  function Clean(s: string): string {
    if s == [] then []
    else (if IsAlnum(s[0]) then [Upper(s[0])] else []) + Clean(s[1..])
  }

  function Alnums(s: string): nat {
    if s == [] then 0 else (if IsAlnum(s[0]) then 1 else 0) + Alnums(s[1..])
  }

  function Dash(s: string): string { if |s| > 4 then s[..4] + "-" + s[4..] else s }

  function Normalise(s: string): string {
    var clean := Clean(s);
    Dash(if |clean| > 10 then clean[..10] else clean)
  }

  predicate IsClean(s: string) { forall i :: 0 <= i < |s| ==> 'A' <= s[i] <= 'Z' || '0' <= s[i] <= '9' }

  lemma {:induction false} CleanIsClean(s: string)
    ensures IsClean(Clean(s)) && |Clean(s)| == Alnums(s)
    decreases |s|
  {
    if s != [] { CleanIsClean(s[1..]); }
  }

  lemma {:induction false} CleanKeeps(s: string)
    requires IsClean(s)
    ensures Clean(s) == s
    decreases |s|
  {
    if s != [] {
      CleanKeeps(s[1..]);
      assert s == [s[0]] + s[1..];
    }
  }

  lemma {:induction false} CleanConcat(a: string, b: string)
    ensures Clean(a + b) == Clean(a) + Clean(b)
    decreases |a|
  {
    if a == [] {
      assert a + b == b;
    } else {
      CleanConcat(a[1..], b);
      assert (a + b)[1..] == a[1..] + b && (a + b)[0] == a[0];
      var first := if IsAlnum(a[0]) then [Upper(a[0])] else [];
      assert Clean(a + b) == first + Clean(a[1..] + b);
    }
  }

  lemma CleanUndash(s: string)
    requires IsClean(s)
    ensures Clean(Dash(s)) == s
  {
    if |s| > 4 {
      CleanConcat(s[..4] + "-", s[4..]);
      CleanConcat(s[..4], "-");
      CleanKeeps(s[..4]);
      CleanKeeps(s[4..]);
      assert Clean("-") == [] by { assert "-"[1..] == []; }
      assert s == s[..4] + s[4..];
    } else {
      CleanKeeps(s);
    }
  }

  /** Normalising twice is normalising once, on every text. */
  lemma NormaliseIdempotent(s: string)
    ensures Normalise(Normalise(s)) == Normalise(s)
  {
    CleanIsClean(s);
    var c := Clean(s);
    var t := if |c| > 10 then c[..10] else c;
    CleanUndash(t);
  }

  /** The join button's length test accepts exactly the texts with ten or more
      alphanumerics. */
  lemma FullLengthExactly(s: string)
    ensures |Normalise(s)| == 11 <==> Alnums(s) >= 10
    ensures |Normalise(s)| <= 11
  {
    CleanIsClean(s);
  }

  /** Every printed code passes through the text field unchanged. */
  lemma PrintedCodesAreNormal(n: nat)
    ensures Normalise(Print(n)) == Print(n)
  {
    PaddedIsClean(n, 6);
    var s := "ROOM" + Padded(n, 6);
    assert IsClean(s);
    assert s[..4] == "ROOM" && s[4..] == Padded(n, 6);
    assert Print(n) == Dash(s);
    CleanUndash(s);
  }

  /** `c` is the capital letter or digit `d`, in upper or lower case. */
  predicate Spells(c: char, d: char) { c == d || ('a' <= c <= 'z' && c as int == d as int + 32) }

  function Letters(s: string): string {
    if s == [] then [] else (if IsAlnum(s[0]) then [s[0]] else []) + Letters(s[1..])
  }

  lemma {:induction false} CleanIsLetters(s: string)
    ensures |Clean(s)| == |Letters(s)|
    ensures forall i, d :: 0 <= i < |Clean(s)| && ('A' <= d <= 'Z' || '0' <= d <= '9') && Spells(Letters(s)[i], d)
              ==> Clean(s)[i] == d
    decreases |s|
  {
    if s != [] { CleanIsLetters(s[1..]); }
  }

  /** However a code is typed, in either case and with any other characters between, its
      ten letters and digits become the code; what follows them is dropped. */
  lemma AnySpellingBecomesTheCode(s: string, n: nat)
    requires |Letters(s)| >= 10
    requires forall i :: 0 <= i < 10 ==> Spells(Letters(s)[i], ("ROOM" + Padded(n, 6))[i])
    ensures Normalise(s) == Print(n)
  {
    PaddedIsClean(n, 6);
    CleanIsLetters(s);
    var code := "ROOM" + Padded(n, 6);
    assert IsClean(code);
    assert Clean(s)[..10] == code;
    assert code[..4] == "ROOM" && code[4..] == Padded(n, 6);
  }

  // ---- picking a code ----

  const MAX_ATTEMPTS := 10

  /** `draws` are the random numbers; the source of randomness fails when they run out
      before the tenth. `answers` says which lookups work. The returned code was free;
      every earlier draw was taken. */
  method NewRoomCode(store: RedisStore, draws: seq<nat>, answers: nat -> bool) returns (r: Result<string>, tried: nat)
    requires forall i :: 0 <= i < |draws| ==> draws[i] < 1_000_000
    ensures tried <= |draws| && tried <= 10
    ensures forall i: nat :: i < tried ==> answers(i) && GetByCode(store.db, Print(draws[i])).Ok?
    ensures r.Ok? ==> tried < |draws| && r.value == Print(draws[tried]) && Get(store.db, RoomKey(r.value)).None?
    ensures r == Err(NoFreeCode) ==> tried == 10
    ensures r == Err(NoRandomness) ==> tried == |draws| < 10
    ensures r.Err? && r.error != NoFreeCode && r.error != NoRandomness ==> tried < |draws|
    ensures r.Err? && r.error != NoFreeCode && r.error != NoRandomness ==>
              if answers(tried) then GetByCode(store.db, Print(draws[tried])) == Err(r.error)
              else r.error == Unavailable
  {
    tried := 0;
    while tried < MAX_ATTEMPTS
      invariant tried <= |draws| && tried <= MAX_ATTEMPTS
      invariant forall i: nat :: i < tried ==> answers(i) && GetByCode(store.db, Print(draws[i])).Ok?
    {
      if tried == |draws| {
        return Err(NoRandomness), tried;
      }
      if !answers(tried) {
        return Err(Unavailable), tried;
      }
      var code := Print(draws[tried]);
      match GetByCode(store.db, code) {
        case Err(InvalidRoomCode) => return Ok(code), tried;
        case Err(e) => return Err(e), tried;
        case Ok(_) => tried := tried + 1;
      }
    }
    r := Err(NoFreeCode);
  }
}
