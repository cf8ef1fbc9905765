/** Facts about products and quotients that the solver does not find by itself. */
module Arithmetic {

  function Abs(x: int): nat { if x < 0 then -x else x }

  lemma LessTimes(x: int, y: int, c: int)
    requires x <= y && c >= 0
    ensures x * c <= y * c
  {
  }

  lemma FloorBounds(n: int, d: int)
    requires d > 0
    ensures d * (n / d) <= n < d * (n / d) + d
  {
    assert n == d * (n / d) + n % d;
  }

  lemma ExactQuotient(a: nat, c: nat)
    requires c > 0
    ensures (a * c + c / 2) / c == a
  {
    var q := (a * c + c / 2) / c;
    FloorBounds(a * c + c / 2, c);
    assert c * q == q * c;
    if q < a { LessTimes(q + 1, a, c); } else if q > a { LessTimes(a + 1, q, c); }
  }

  lemma TimesAbs(y: int, x: int, f: nat)
    ensures Abs(y * f - x * f) == f * Abs(y - x)
  {
    assert y * f - x * f == (y - x) * f;
    if y < x {
      assert (y - x) * f == -((x - y) * f);
      LessTimes(0, x - y, f);
    } else {
      LessTimes(0, y - x, f);
    }
  }

  lemma AbsSpreads(a: int, b: int, f: nat)
    ensures f * Abs(a - b) <= f * Abs(a) + f * Abs(b)
  {
    LessTimes(Abs(a - b), Abs(a) + Abs(b), f);
    assert (Abs(a) + Abs(b)) * f == Abs(a) * f + Abs(b) * f;
  }
}
