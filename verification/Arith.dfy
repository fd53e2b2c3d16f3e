/** Multiplication and division facts the solver needs one at a time. */
module Arith {
  lemma MulLe(a: int, b: int, d: int)
    requires a <= b && 0 <= d
    ensures a * d <= b * d
  {
    assert (b - a) * d >= 0;
    assert (b - a) * d == b * d - a * d;
  }

  lemma MulSub(a: int, b: int, d: int)
    ensures (a - b) * d == a * d - b * d
  {
  }

  lemma MulAdd(a: int, b: int, d: int)
    ensures (a + b) * d == a * d + b * d
  {
  }

  lemma SmallMultiple(k: int, d: int)
    requires 0 < d && -d < k * d < d
    ensures k == 0
  {
    if k > 0 {
      MulLe(1, k, d);
    } else if k < 0 {
      MulLe(k, -1, d);
    }
  }

  lemma SmallMod(x: int, m: int)
    requires 0 <= x < m
    ensures x % m == x
  {
  }

  lemma DivFloor(x: int, d: int)
    requires d > 0
    ensures x == x / d * d + x % d && 0 <= x % d < d
  {
  }

  lemma SameQuotient(q: int, r: int, q': int, r': int, d: int)
    requires 0 <= r < d && 0 <= r' < d && q * d + r == q' * d + r'
    ensures q == q' && r == r'
  {
    MulSub(q, q', d);
    SmallMultiple(q - q', d);
  }

  lemma QuotientUnique(x: int, d: int, q: int, r: int)
    requires x == q * d + r && 0 <= r < d
    ensures x / d == q && x % d == r
  {
    DivFloor(x, d);
    SameQuotient(q, r, x / d, x % d, d);
  }

  lemma MultipleMod(q: int, d: int)
    requires d > 0
    ensures q * d % d == 0 && q * d / d == q
  {
    QuotientUnique(q * d, d, q, 0);
  }

  lemma FloorLe(q: int, r: int, q': int, r': int, d: int)
    requires 0 <= r < d && 0 <= r' < d && q * d + r <= q' * d + r'
    ensures q <= q'
  {
    if q > q' {
      MulLe(q' + 1, q, d);
      MulAdd(q', 1, d);
    }
  }

  /** Multiples of d up to the quotient stay at or below x. */
  lemma MultipleBelow(i: int, x: int, d: int)
    requires d > 0 && 0 <= i <= x / d
    ensures 0 <= i * d <= x
  {
    DivFloor(x, d);
    MulLe(i, x / d, d);
    MulLe(0, i, d);
  }

  lemma DivMonotone(a: int, b: int, d: int)
    requires a <= b && d > 0
    ensures a / d <= b / d
  {
    DivFloor(a, d);
    DivFloor(b, d);
    FloorLe(a / d, a % d, b / d, b % d, d);
  }

  /** Two multiples of d are a whole number of d apart. */
  lemma MultiplesApart(a: int, b: int, d: int)
    requires d > 0 && a % d == 0 && b % d == 0
    ensures (a - b) % d == 0 && a - b == (a - b) / d * d
  {
    DivFloor(a, d);
    DivFloor(b, d);
    MulSub(a / d, b / d, d);
    QuotientUnique(a - b, d, a / d - b / d, 0);
  }

  lemma SubMultiple(x: int, m: int, d: int)
    requires d > 0 && m % d == 0
    ensures (x - m) % d == x % d
  {
    DivFloor(x, d);
    DivFloor(m, d);
    MulSub(x / d, m / d, d);
    QuotientUnique(x - m, d, x / d - m / d, x % d);
  }

  lemma MulAssoc(a: int, b: int, c: int)
    ensures a * b * c == a * (b * c)
  {
  }

  /** x mod a*b, digit by digit. */
  lemma ModSplit(x: int, a: int, b: int)
    requires 0 <= x && a > 0 && b > 0
    ensures a * b > 0 && x % (a * b) == x / a % b * a + x % a
  {
    MulLe(1, a, b);
    var q, r := x / a, x % a;
    DivFloor(x, a);
    DivFloor(q, b);
    var k, s := q / b, q % b;
    MulAdd(k * b, s, a);
    MulAssoc(k, b, a);
    MulLe(s + 1, b, a);
    MulAdd(s, 1, a);
    MulLe(0, s, a);
    assert b * a == a * b;
    QuotientUnique(x, a * b, k, s * a + r);
  }

  /** Indices less than n apart share a residue only if they are equal. */
  lemma SameResidue(a: int, b: int, n: int)
    requires 0 <= b - a < n
    ensures a % n == b % n <==> a == b
  {
    DivFloor(a, n);
    DivFloor(b, n);
    if a % n == b % n {
      MulSub(b / n, a / n, n);
      SmallMultiple(b / n - a / n, n);
    }
  }

  /** A whole turn apart is the same residue. */
  lemma FullTurn(a: int, n: int)
    requires n > 0
    ensures (a + n) % n == a % n
  {
    DivFloor(a, n);
    MulAdd(a / n, 1, n);
    QuotientUnique(a + n, n, a / n + 1, a % n);
  }

  lemma NextResidue(a: int, n: int)
    requires n > 0
    ensures (a % n + 1) % n == (a + 1) % n
  {
    DivFloor(a, n);
    var r := a % n + 1;
    DivFloor(r, n);
    MulAdd(a / n, r / n, n);
    QuotientUnique(a + 1, n, a / n + r / n, r % n);
  }

  /** The difference of two residues, reduced, is the distance when that is below n. */
  lemma ResidueDistance(a: int, b: int, n: int)
    requires 0 <= b - a < n
    ensures (b % n - a % n) % n == b - a
  {
    DivFloor(a, n);
    DivFloor(b, n);
    MulSub(a / n, b / n, n);
    QuotientUnique(b % n - a % n, n, a / n - b / n, b - a);
  }
}
