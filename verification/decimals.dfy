/** Numbers as decimal text. */
module Decimals {
  import opened Common

  function Digit(d: nat): char
    requires d < 10
  {
    "0123456789"[d]
  }

  function Decimal(n: nat): string {
    if n < 10 then [Digit(n)] else Decimal(n / 10) + [Digit(n % 10)]
  }

  /** The number a text of decimal digits denotes. */
  function Number(s: string): Option<nat> {
    if s == [] then Some(0)
    else
      var last := s[|s| - 1];
      match Number(s[..|s| - 1])
      case Some(n) => if '0' <= last <= '9' then Some(10 * n + (last as int - '0' as int)) else None
      case None => None
  }

  lemma NumberAppend(s: string, d: nat)
    requires Number(s).Some? && d < 10
    ensures Number(s + [Digit(d)]) == Some(10 * Number(s).value + d)
  {
    assert (s + [Digit(d)])[..|s|] == s;
  }

  /** The text of a number reads back as the number and has no leading zero. */
  lemma {:induction false} DecimalReadsBack(n: nat)
    ensures Decimal(n) != "" && Number(Decimal(n)) == Some(n)
    ensures Decimal(n)[0] == '0' <==> n == 0
    decreases n
  {
    if n < 10 {
      assert [] + [Digit(n)] == [Digit(n)];
      NumberAppend([], n);
    } else {
      DecimalReadsBack(n / 10);
      NumberAppend(Decimal(n / 10), n % 10);
    }
  }
}
