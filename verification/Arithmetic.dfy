/** Products, quotients and remainders with a variable unit, behind functions whose bodies proofs can
    leave out. */
module Arithmetic {

  /** Where unit `s` starts, in units of `bs`. */
  function At(s: nat, bs: nat): nat { s * bs }

  function Quotient(n: nat, bs: nat): nat
    requires bs > 0
  {
    n / bs
  }

  function Remainder(n: nat, bs: nat): nat
    requires bs > 0
  {
    n % bs
  }

  lemma AtSum(a: nat, b: nat, bs: nat)
    ensures At(a + b, bs) == At(a, bs) + At(b, bs)
    ensures At(1, bs) == bs && At(0, bs) == 0
  {
  }

  lemma AtMonotone(a: nat, b: nat, bs: nat)
    requires a <= b
    ensures At(a, bs) <= At(b, bs)
  {
  }

  lemma Division(n: nat, bs: nat)
    requires bs > 0
    ensures n == At(Quotient(n, bs), bs) + Remainder(n, bs) && Remainder(n, bs) < bs
    ensures Quotient(n, bs) == 0 <==> n < bs
  {
  }

  lemma DivisionUnique(n: nat, bs: nat, q: nat, r: nat)
    requires bs > 0 && n == At(q, bs) + r && r < bs
    ensures Quotient(n, bs) == q && Remainder(n, bs) == r
  {
    var d := n / bs;
    assert d * bs + n % bs == n;
    if d < q { AtMonotone(d + 1, q, bs); }
    if q < d { AtMonotone(q + 1, d, bs); }
  }

  /** The number of units needed to reach `n`. */
  function Ceiling(n: nat, bs: nat): nat
    requires bs > 0
  {
    if Remainder(n, bs) == 0 then Quotient(n, bs) else Quotient(n, bs) + 1
  }

  lemma CeilingFacts(n: nat, bs: nat)
    requires bs > 0
    ensures n <= At(Ceiling(n, bs), bs)
    ensures Ceiling(n, bs) > 0 ==> At(Ceiling(n, bs) - 1, bs) < n
    ensures n == 0 <==> Ceiling(n, bs) == 0
  {
    hide At;
    hide Quotient;
    hide Remainder;
    Division(n, bs);
    AtSum(Quotient(n, bs), 1, bs);
    if Quotient(n, bs) > 0 { AtSum(Quotient(n, bs) - 1, 1, bs); }
  }

  lemma CeilingLeast(n: nat, bs: nat, c: nat)
    requires bs > 0 && n <= At(c, bs)
    ensures Ceiling(n, bs) <= c
  {
    hide At;
    hide Ceiling;
    CeilingFacts(n, bs);
    if Ceiling(n, bs) > c { AtMonotone(c, Ceiling(n, bs) - 1, bs); }
  }

  lemma CeilingAbove(n: nat, bs: nat, c: nat)
    requires bs > 0 && At(c, bs) < n
    ensures c < Ceiling(n, bs) && At(c, bs) + bs <= At(Ceiling(n, bs), bs)
  {
    hide At;
    hide Ceiling;
    CeilingFacts(n, bs);
    if Ceiling(n, bs) <= c { AtMonotone(Ceiling(n, bs), c, bs); }
    AtSum(c, 1, bs);
    AtMonotone(c + 1, Ceiling(n, bs), bs);
  }
}
