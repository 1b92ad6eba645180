/** Going around a ring in C, whose % truncates toward zero. */
module Modulo {

  /** C's remainder, then the source's correction of a negative one. */
  function Wrap(a: int, n: nat): nat
    requires n > 0
  {
    var rest := if a >= 0 then a % n else -((-a) % n);
    if rest < 0 then rest + n else rest
  }

  lemma WrapIsModulo(a: int, n: nat)
    requires n > 0
    ensures Wrap(a, n) == a % n < n
  {
    if a < 0 {
      var q, r := (-a) / n, (-a) % n;
      NegatedDivision(a, n, q, r);
      if r == 0 {
        ModuloUnique(a, n, -q, 0);
      } else {
        ModuloUnique(a, n, -q - 1, n - r);
      }
    }
  }

  lemma NegatedDivision(a: int, n: nat, q: int, r: int)
    requires n > 0 && q == (-a) / n && r == (-a) % n
    ensures a == -q * n - r && a == (-q - 1) * n + (n - r)
  {
    assert -a == n * q + r;
    assert (-q - 1) * n == -q * n - n;
  }

  lemma ModuloUnique(a: int, n: nat, q: int, r: nat)
    requires n > 0 && a == q * n + r && r < n
    ensures a % n == r
  {
    var p, m := a / n, a % n;
    assert a == n * p + m;
    QuotientUnique(n, p, m, q, r);
  }

  lemma QuotientUnique(n: nat, p: int, m: nat, q: int, r: nat)
    requires n > 0 && m < n && r < n && n * p + m == q * n + r
    ensures m == r
  {
    assert (p - q) * n == n * p - q * n && (q - p) * n == q * n - n * p;
    if p > q {
      AtLeastOne(p - q, n);
    } else if p < q {
      AtLeastOne(q - p, n);
    }
  }

  lemma AtLeastOne(k: int, n: nat)
    requires k >= 1
    ensures k * n >= n
  {
  }

  /** Going round twice is going round once by the sum. */
  lemma ModuloShift(a: int, b: int, n: nat)
    requires n > 0
    ensures (a % n + b) % n == (a + b) % n
  {
    var q, r := a / n, (a % n + b) % n;
    assert a == q * n + a % n;
    var k := (a % n + b) / n;
    assert a % n + b == k * n + r;
    assert a + b == (q + k) * n + r by { assert (q + k) * n == q * n + k * n; }
    ModuloUnique(a + b, n, q + k, r);
  }

  /** Going back undoes going forth. */
  lemma WrapBack(a: nat, count: int, n: nat)
    requires a < n
    ensures Wrap(Wrap(a + count, n) - count, n) == a
  {
    WrapIsModulo(a + count, n);
    WrapIsModulo(Wrap(a + count, n) - count, n);
    ModuloShift(a + count, -count, n);
    ModuloUnique(a, n, 0, a);
  }
}
