// Products and quotients, for digits in any base and for grids.
module Division {

  function Power(base: nat, n: nat): (p: nat)
    requires base > 0
    ensures p >= 1
  {
    if n == 0 then 1 else base * Power(base, n - 1)
  }

  lemma DivideTwice(u: nat, a: nat, p: nat)
    requires a > 0 && p > 0
    ensures a * p > 0 && u / a / p == u / (a * p)
  {
    var v := u / a;
    var q := v / p;
    QuotientBounds(v, p);
    QuotientBounds(u, a);
    Inside(u, a, v, q * p, (q + 1) * p);
    Regroup(q, a, p);
    Regroup(q + 1, a, p);
    Positive(a, p);
    QuotientIs(u, a * p, q);
  }

  lemma Positive(a: nat, p: nat)
    requires a > 0 && p > 0
    ensures a * p > 0
  {
  }

  lemma Regroup(q: nat, a: nat, p: nat)
    ensures (q * p) * a == q * (a * p)
  {
  }

  lemma Inside(u: nat, a: nat, v: nat, low: nat, high: nat)
    requires a > 0 && v * a <= u < (v + 1) * a && low <= v < high
    ensures low * a <= u < high * a
  {
    ScaleUp(low, v, a);
    ScaleUp(v + 1, high, a);
  }

  lemma QuotientBounds(a: nat, b: nat)
    requires b > 0
    ensures (a / b) * b <= a < (a / b + 1) * b
  {
    assert a == (a / b) * b + a % b;
    assert (a / b + 1) * b == (a / b) * b + b;
  }

  lemma QuotientIs(a: nat, b: nat, q: nat)
    requires b > 0 && q * b <= a < (q + 1) * b
    ensures a / b == q
  {
    QuotientBounds(a, b);
    var d := a / b;
    if d < q {
      ScaleUp(d + 1, q, b);
    } else if d > q {
      ScaleUp(q + 1, d, b);
    }
  }

  lemma ScaleUp(a: int, b: int, p: nat)
    requires a <= b
    ensures a * p <= b * p
  {
  }
}
