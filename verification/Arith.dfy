/** Integer division and remainder facts used throughout. */
module Arith {

  lemma MulAtLeast(d: nat, t: int)
    requires t >= 1
    ensures d * t >= d
  {
  }

  lemma ProductIsNat(a: nat, b: nat)
    ensures a * b >= 0
  {
  }

  /** Quotient and remainder are unique. */
  lemma DivModUnique(z: int, d: nat, q: int, r: nat)
    requires r < d && z == q * d + r
    ensures z / d == q && z % d == r
  {
    var t := q - z / d;
    assert d * t == z % d - r by {
      assert d * t == d * q - d * (z / d);
    }
    if t >= 1 { MulAtLeast(d, t); }
    if t <= -1 { MulAtLeast(d, -t); }
  }

  lemma ModAtMost(z: nat, d: nat)
    requires d > 0
    ensures z % d <= z
  {
  }

  lemma MulAssoc(a: int, b: int, c: int) ensures a * (b * c) == a * b * c {}

  lemma MulDistributes(a: int, b: int, c: int) ensures a * (b + c) == a * b + a * c && (b + c) * a == b * a + c * a {}

  lemma MulSub(a: int, b: int, c: int) ensures a * (b - c) == a * b - a * c && (b - c) * a == b * a - c * a {}

  /** Adding a multiple of the modulus does not change the remainder. */
  lemma ModShift(a: int, k: int, m: nat)
    requires m > 0
    ensures (a + k * m) % m == a % m
  {
    assert a + k * m == (a / m + k) * m + a % m by { MulDistributes(m, a / m, k); }
    DivModUnique(a + k * m, m, a / m + k, a % m);
  }

  lemma ExpandProduct(q: int, r: int, s: int, t: int, m: int)
    ensures (q * m + r) * (s * m + t) == r * t + (q * (s * m + t) + r * s) * m
  {
    var b := s * m + t;
    MulDistributes(b, q * m, r);
    MulAssoc(q, m, b);
    MulAssoc(q, b, m);
    MulDistributes(r, s * m, t);
    MulAssoc(r, s, m);
    MulDistributes(m, q * b, r * s);
  }

  lemma ModOfProduct(a: int, b: int, q: int, r: int, s: int, t: int, m: nat)
    requires m > 0 && a == q * m + r && b == s * m + t
    ensures (a * b) % m == (r * t) % m
  {
    var k := q * b + r * s;
    assert a * b == r * t + k * m by { ExpandProduct(q, r, s, t, m); }
    ModShift(r * t, k, m);
  }

  /** Remainders can be taken before multiplying. */
  lemma ModMul(a: int, b: int, m: nat)
    requires m > 0
    ensures (a * b) % m == (a % m) * (b % m) % m
  {
    ModOfProduct(a, b, a / m, a % m, b / m, b % m, m);
  }

  lemma ProductBelow(a: nat, x: nat, b: nat, y: nat)
    requires a < x && b < y
    ensures a * b < x * y
  {
    assert a * b <= a * y;
    assert a * y < x * y by { MulSub(y, x, a); MulAtLeast(y, x - a); }
  }

  lemma ModSmall(x: nat, m: nat)
    requires x < m
    ensures x % m == x
  {
  }

  lemma ModMulRight(a: int, b: int, m: nat)
    requires m > 0
    ensures (a * (b % m)) % m == (a * b) % m
  {
    ModMul(a, b, m);
    ModMul(a, b % m, m);
    ModSmall(b % m, m);
  }

  lemma ModAdd(a: int, b: int, m: nat)
    requires m > 0
    ensures (a + b) % m == (a % m + b % m) % m
  {
    assert a + b == a % m + b % m + (a / m + b / m) * m by { MulDistributes(m, a / m, b / m); }
    ModShift(a % m + b % m, a / m + b / m, m);
  }

  lemma ModAddRight(a: int, b: int, m: nat)
    requires m > 0
    ensures (a + b % m) % m == (a + b) % m
  {
    assert a + b == a + b % m + b / m * m;
    ModShift(a + b % m, b / m, m);
  }

  /** Two numbers have the same remainder exactly if their difference has none. */
  lemma SameRemainder(x: int, y: int, m: nat)
    requires m > 0
    ensures x % m == y % m <==> (y - x) % m == 0
  {
    if x % m == y % m {
      var k := y / m - x / m;
      assert y - x == k * m by { MulSub(m, y / m, x / m); }
      DivModUnique(y - x, m, k, 0);
    }
    if (y - x) % m == 0 {
      assert y == x + (y - x) / m * m;
      ModShift(x, (y - x) / m, m);
    }
  }

  lemma MultiplesApart(i: nat, n: nat, d: nat)
    requires d > 0 && i % d == 0 && n % d == 0 && i < n
    ensures i + d <= n && (i + d) % d == 0
  {
    ModShift(i, 1, d);
    SameRemainder(i, n, d);
    if n - i < d { ModSmall(n - i, d); }
  }

  /** Rounding down to a multiple. */
  lemma RoundDown(n: nat, d: nat)
    requires d > 0
    ensures 0 <= n - n % d && (n - n % d) % d == 0
    ensures n >= d ==> n - n % d >= d
  {
    ModAtMost(n, d);
    ModSmall(n % d, d);
    SameRemainder(n % d, n, d);
    if n >= d > n - n % d { ModSmall(n - n % d, d); }
  }

  lemma WholeQuotient(n: nat, d: nat)
    requires d > 0 && n % d == 0
    ensures n == n / d * d
  {
  }
}
