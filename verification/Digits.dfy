/**
 The digits of a number in any base.
 */
module Digits {
  function Pow(base: nat, k: nat): (p: nat)
    ensures base > 0 ==> p > 0
  {
    if k == 0 then 1 else base * Pow(base, k - 1)
  }

  /** Digit number k, counted from the lowest. */
  function Digit(u: nat, base: nat, k: nat): (d: nat)
    requires base > 0
    ensures d < base
  {
    u / Pow(base, k) % base
  }

  lemma DigitOfQuotient(u: nat, base: nat, k: nat)
    requires base > 0 && k > 0
    ensures Digit(u, base, k) == Digit(u / base, base, k - 1)
  {
    DivTwice(u, base, Pow(base, k - 1));
  }

  lemma DivTwice(u: nat, a: nat, b: nat)
    requires a > 0 && b > 0
    ensures a * b > 0 && u / (a * b) == u / a / b
  {
    Quotients(u, a, b, a * b, u / a, u % a, u / a / b, u / a % b);
  }

  lemma Quotients(u: nat, a: nat, b: nat, c: nat, v: nat, t: nat, q: nat, r: nat)
    requires a > 0 && b > 0 && c == a * b && u == v * a + t && t < a && v == q * b + r && r < b
    ensures c > 0 && u / c == q
  {
    MulLeq(1, b, a);
    MulLeq(r + 1, b, a);
    Regroup(q, b, r, a, t);
    QuotientIs(u, c, q, r * a + t);
  }

  lemma Regroup(q: nat, b: nat, r: nat, a: nat, t: nat)
    ensures (q * b + r) * a + t == q * (a * b) + (r * a + t)
  {
  }

  lemma MulLeq(x: nat, y: nat, d: nat)
    requires x <= y
    ensures x * d <= y * d
  {
  }

  lemma QuotientIs(u: nat, d: nat, q: nat, r: nat)
    requires d > 0 && u == q * d + r && r < d
    ensures u / d == q
  {
    if u / d < q {
      MulLeq(u / d + 1, q, d);
    } else if u / d > q {
      MulLeq(q + 1, u / d, d);
    }
  }
}
