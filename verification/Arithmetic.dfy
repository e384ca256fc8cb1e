/** The few facts about products, quotients and finite sets that the other modules need. */
module Arithmetic {

  lemma MulMonotone(a: int, b: int, c: int)
    requires a <= b && 0 <= c
    ensures a * c <= b * c
  {
  }

  lemma MulStrict(a: int, b: int, c: int)
    requires a < b && 0 < c
    ensures a * c + c <= b * c
  {
    MulMonotone(a + 1, b, c);
    assert (a + 1) * c == a * c + c;
  }

  /** A quotient and a remainder in range determine the division. */
  lemma DivModUnique(x: int, d: int, q: int, r: int)
    requires d > 0 && 0 <= r < d && x == q * d + r
    ensures x / d == q && x % d == r
  {
    var q', r' := x / d, x % d;
    assert x == q' * d + r';
    if q' < q {
      MulStrict(q', q, d);
    } else if q < q' {
      MulStrict(q, q', d);
    }
  }

  lemma DivModInjective(x: int, y: int, d: int)
    requires d > 0 && x / d == y / d && x % d == y % d
    ensures x == y
  {
    assert x == (x / d) * d + x % d && y == (y / d) * d + y % d;
  }

  lemma DivBound(x: int, d: int, q: int)
    requires d > 0
    ensures x < q * d ==> x / d < q
    ensures q * d <= x ==> q <= x / d
  {
    var k, r := x / d, x % d;
    assert x == k * d + r;
    if x < q * d && q <= k {
      MulMonotone(q, k, d);
    }
    if q * d <= x && k < q {
      MulStrict(k, q, d);
    }
  }

  /** Adding multiples of the divisor moves the quotient and keeps the remainder. */
  lemma DivModShift(x: int, d: int, k: int)
    requires d > 0
    ensures (x + k * d) / d == x / d + k && (x + k * d) % d == x % d
  {
    var q, r := x / d, x % d;
    assert x == q * d + r;
    assert (q + k) * d == q * d + k * d;
    DivModUnique(x + k * d, d, q + k, r);
  }

  /** A subset of a set that has as many elements is that set. */
  lemma SubsetSameSize<T>(a: set<T>, b: set<T>)
    requires a <= b && |a| >= |b|
    ensures a == b
  {
    assert b == (b - a) + a;
  }

  lemma SubsetSize<T>(a: set<T>, b: set<T>)
    requires a <= b
    ensures |a| <= |b|
  {
    assert b == (b - a) + a;
  }

  lemma SomeElement<T>(s: set<T>) returns (z: T)
    requires s != {}
    ensures z in s
  {
    z :| z in s;
  }
}
