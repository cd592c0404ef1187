/** Divisibility by a positive modulus: the few facts every modular argument below rests on. */
module Congruence {

  /** `m` divides `a`. Two numbers are congruent modulo `m` when `m` divides their difference. */
  predicate Divides(m: int, a: int)
    requires m > 0
  {
    a % m == 0
  }

  ghost predicate IsPrime(p: int) {
    p > 1 && forall d :: 1 < d < p ==> p % d != 0
  }

  /** Euclidean division is the only way to write `a` as a multiple plus a small remainder. */
  lemma RemainderIsUnique(m: int, a: int, q: int, r: int)
    requires m > 0 && 0 <= r < m && a == m * q + r
    ensures a % m == r && a / m == q
  {
    var d := q - a / m;
    assert m * d == m * q - m * (a / m);
    assert m * d == a % m - r;
    assert m * -d == -(m * d);
    if d >= 1 {
      SmallMultiple(m, d);
    } else if d <= -1 {
      SmallMultiple(m, -d);
    }
  }

  lemma SmallMultiple(m: int, d: int)
    requires m > 0 && d >= 1
    ensures m * d >= m
  {
  }

  lemma MultipleIsDivisible(m: int, k: int)
    requires m > 0
    ensures Divides(m, k * m)
    ensures Divides(m, m * k)
  {
  }

  lemma DividesSum(m: int, a: int, b: int)
    requires m > 0 && Divides(m, a) && Divides(m, b)
    ensures Divides(m, a + b) && Divides(m, a - b)
  {
    var i, j := a / m, b / m;
    assert a == m * i && b == m * j;
    assert a + b == m * (i + j) && a - b == m * (i - j);
    MultipleIsDivisible(m, i + j);
    MultipleIsDivisible(m, i - j);
  }

  lemma DividesProduct(m: int, a: int, k: int)
    requires m > 0 && Divides(m, a)
    ensures Divides(m, k * a) && Divides(m, a * k)
  {
    var i := a / m;
    assert a == m * i;
    assert k * a == m * (k * i);
    MultipleIsDivisible(m, k * i);
  }

  lemma RemainderIsCongruent(m: int, a: int)
    requires m > 0
    ensures Divides(m, a - a % m) && Divides(m, a % m - a)
  {
    assert a - a % m == m * (a / m);
    MultipleIsDivisible(m, a / m);
    MultipleIsDivisible(m, -(a / m));
    assert a % m - a == m * -(a / m);
  }

  lemma DivisorIsSmall(m: int, a: int)
    requires m > 0 && a > 0 && Divides(m, a)
    ensures m <= a
  {
  }

  /** Euclid's lemma in the form used here: an invertible factor can be cancelled. */
  lemma CancelInvertible(p: int, a: int, inverse: int, b: int)
    requires p > 0 && Divides(p, inverse * a - 1) && Divides(p, a * b)
    ensures Divides(p, b)
  {
    DividesProduct(p, a * b, inverse);
    DividesProduct(p, inverse * a - 1, b);
    DividesSum(p, inverse * (a * b), (inverse * a - 1) * b);
    assert inverse * (a * b) - (inverse * a - 1) * b == b;
  }

  /** Congruent numbers in the canonical range are equal. */
  lemma CanonicalIsUnique(m: int, a: int, b: int)
    requires m > 0 && 0 <= a < m && 0 <= b < m && Divides(m, a - b)
    ensures a == b
  {
  }
}
