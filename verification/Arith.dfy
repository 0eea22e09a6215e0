/** Division facts shared by the models. */
module Arith {

  lemma MulAtLeast(d: int, x: int)
    requires d > 0 && x >= 1
    ensures d * x >= d
  {}

  lemma QuotientUnique(d: int, q: int, r: int, q': int, r': int)
    requires d > 0 && 0 <= r < d && 0 <= r' < d && d * q + r == d * q' + r'
    ensures q == q' && r == r'
  {
    assert d * (q - q') == d * q - d * q' && d * (q' - q) == d * q' - d * q;
    if q > q' {
      MulAtLeast(d, q - q');
    } else if q < q' {
      MulAtLeast(d, q' - q);
    }
  }

  lemma DivModUnique(n: int, d: int, q: int, r: int)
    requires d > 0 && 0 <= r < d && n == d * q + r
    ensures n / d == q && n % d == r
  {
    QuotientUnique(d, q, r, n / d, n % d);
  }

  lemma SmallMod(n: nat, p: nat)
    requires n < p
    ensures n % p == n && n / p == 0
  {
    DivModUnique(n, p, 0, n);
  }

  /** Dividing by a p is dividing by a and then by p. */
  lemma DivSplit(n: nat, a: nat, p: nat)
    requires a >= 1 && p >= 1
    ensures a * p >= 1
    ensures n / (a * p) == (n / a) / p
    ensures n % (a * p) == a * ((n / a) % p) + n % a
  {
    var m := n / a;
    var q, r := m / p, m % p;
    assert m == p * q + r && n == a * m + n % a;
    assert a * (p * q) == (a * p) * q && a * (p * q + r) == a * (p * q) + a * r;
    MulAtLeast(a, p);
    assert a * r + n % a < a * p by {
      assert a * (p - r) >= a by { MulAtLeast(a, p - r); }
      assert a * (p - r) == a * p - a * r;
    }
    assert n == (a * p) * q + (a * r + n % a);
    DivModUnique(n, a * p, q, a * r + n % a);
  }

  lemma ModStep(i: nat, m: nat)
    requires m > 0
    ensures (i + 1) % m == if i % m + 1 == m then 0 else i % m + 1
  {
    var q, r := i / m, i % m;
    assert i == m * q + r;
    if r + 1 == m {
      assert i + 1 == m * (q + 1) + 0;
      DivModUnique(i + 1, m, q + 1, 0);
    } else {
      DivModUnique(i + 1, m, q, r + 1);
    }
  }
}
