/**
  Facts about products, quotients and remainders.
 */
module Arithmetic {

  lemma QuotientAndRemainder(x: nat, m: nat)
    requires m > 0
    ensures x == x / m * m + x % m && x % m < m
  {
  }

  lemma Combine(q: nat, k: nat, m: nat, r: nat, b: nat, z: nat, w: nat)
    requires r * k + b == z * m + w
    ensures (q * m + r) * k + b == (q * k + z) * m + w
  {
    Distribute(q * m, r, k);
    Distribute(q * k, z, m);
    Rotate(q, m, k);
  }

  lemma Distribute(a: nat, b: nat, c: nat)
    ensures (a + b) * c == a * c + b * c
  {
  }

  lemma Rotate(a: nat, b: nat, c: nat)
    ensures a * b * c == a * c * b
  {
  }

  lemma TwiceProduct(x: nat, y: nat)
    ensures x * (2 * y) == 2 * (x * y)
  {
  }

  lemma DivideUnique(v: nat, m: nat, q: nat, r: nat)
    requires m > 0 && r < m && v == q * m + r
    ensures v / m == q && v % m == r
  {
    var d: int := v / m - q;
    assert d * m + v % m == r by {
      assert v == (v / m) * m + v % m && d * m + q * m == (v / m) * m;
    }
    Multiple(d, m);
  }

  lemma Multiple(d: int, m: nat)
    ensures d == 0 || d * m >= m || d * m + m <= 0
  {
    if d > 0 {
      PositiveProduct(d - 1, m);
    } else if d < 0 {
      PositiveProduct(-1 - d, m);
    }
  }

  lemma PositiveProduct(x: nat, m: nat)
    ensures (x + 1) * m >= m && (-1 - x) * m + m <= 0
  {
  }

  lemma DivideTwice(v: nat, a: nat, b: nat)
    requires a > 0 && b > 0
    ensures a * b > 0 && v / a / b == v / (a * b)
  {
    var q, r, w := v / a / b, v / a % b, v % a;
    QuotientAndRemainder(v, a);
    QuotientAndRemainder(v / a, b);
    Distribute(q * b, r, a);
    Rotate(q, b, a);
    Associate(q, a, b);
    RemainderOfTwo(r, w, a, b);
    DivideUnique(v, a * b, q, r * a + w);
  }

  lemma Associate(a: nat, b: nat, c: nat)
    ensures a * b * c == a * (b * c)
  {
  }

  lemma RemainderOfTwo(r: nat, w: nat, a: nat, b: nat)
    requires r < b && w < a
    ensures r * a + w < a * b
  {
    assert (r + 1) * a <= b * a by {
      Distribute(b - (r + 1), r + 1, a);
    }
  }

  // Truncation to the width of an integer type may be done at each step.
  lemma TruncateStep(x: nat, k: nat, b: nat, m: nat)
    requires m > 0
    ensures (x % m * k + b) % m == (x * k + b) % m
  {
    var y := x % m * k + b;
    QuotientAndRemainder(x, m);
    QuotientAndRemainder(y, m);
    Combine(x / m, k, m, x % m, b, y / m, y % m);
    DivideUnique(x * k + b, m, x / m * k + y / m, y % m);
  }

  lemma RemainderIsSmaller(x: nat, m: nat)
    requires m > 0
    ensures x % m <= x && (x < m ==> x % m == x)
  {
    QuotientAndRemainder(x, m);
    if x < m {
      DivideUnique(x, m, 0, x);
    }
  }

  lemma QuotientIsNatural(x: int, m: int)
    requires x >= 0 && m > 0
    ensures x / m >= 0
  {
  }
}
