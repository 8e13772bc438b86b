/** Quotients and powers, for numbers written in digits. */
module Arithmetic {
  function Power(base: nat, e: nat): (r: nat)
    ensures base > 0 ==> r > 0
  {
    if e == 0 then 1 else base * Power(base, e - 1)
  }

  lemma MulMonotone(a: nat, b: nat, d: nat)
    ensures a <= b ==> a * d <= b * d
  {
  }

  lemma QuotientIs(n: nat, d: nat, q: nat, r: nat)
    requires n == q * d + r && r < d
    ensures n / d == q
  {
    var e := n / d;
    assert n == e * d + n % d;
    MulMonotone(e + 1, q, d);
    MulMonotone(q + 1, e, d);
    assert (e + 1) * d == e * d + d && (q + 1) * d == q * d + d;
  }

  lemma Regroup(b: nat, q: nat, p: nat, t: nat, u: nat)
    ensures b * (q * p + t) + u == q * (b * p) + (b * t + u)
  {
    assert b * (q * p + t) == b * (q * p) + b * t;
    assert b * (q * p) == q * (b * p);
  }

  lemma DivideTwice(n: nat, b: nat, p: nat)
    requires b > 0 && p > 0
    ensures b * p > 0 && (n / b) / p == n / (b * p)
  {
    Below(b, 0, p, 0);
    var m, u := DivMod(n, b);
    var q, t := DivMod(m, p);
    Regroup(b, q, p, t, u);
    Below(b, t, p, u);
    QuotientIs(n, b * p, q, b * t + u);
  }

  lemma DivMod(n: nat, d: nat) returns (q: nat, r: nat)
    requires d > 0
    ensures q == n / d && r < d && n == q * d + r == d * q + r
  {
    q, r := n / d, n % d;
  }

  lemma Below(b: nat, t: nat, p: nat, u: nat)
    requires u < b && t < p
    ensures b * t + u < b * p
  {
    MulMonotone(t + 1, p, b);
    assert (t + 1) * b == b * t + b && p * b == b * p;
  }
}
