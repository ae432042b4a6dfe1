/** The number theory RSA rests on: Euclid's lemma, modular inverses, Fermat's
    little theorem and the uniqueness half of the Chinese remainder theorem. */
module NumberTheory {
  import opened Arith

  // ---- powers ----

  function Pow(b: nat, e: nat): nat { if e == 0 then 1 else b * Pow(b, e - 1) }

  lemma {:induction false} PowAdd(b: nat, x: nat, y: nat)
    ensures Pow(b, x + y) == Pow(b, x) * Pow(b, y)
  {
    if x > 0 {
      PowAdd(b, x - 1, y);
      MulAssoc(b, Pow(b, x - 1), Pow(b, y));
    }
  }

  lemma {:induction false} PowPow(b: nat, x: nat, y: nat)
    ensures Pow(Pow(b, x), y) == Pow(b, x * y)
  {
    if y > 0 {
      PowPow(b, x, y - 1);
      PowAdd(b, x, x * (y - 1));
      assert x + x * (y - 1) == x * y;
    }
  }

  lemma {:induction false} PowMod(b: nat, e: nat, m: nat)
    requires m > 0
    ensures Pow(b % m, e) % m == Pow(b, e) % m
  {
    if e > 0 {
      PowMod(b, e - 1, m);
      ModMul(b, Pow(b, e - 1), m);
      ModMul(b % m, Pow(b % m, e - 1), m);
      assert b % m % m == b % m by { ModSmall(b % m, m); }
    }
  }

  lemma {:induction false} PowPositive(b: nat, e: nat)
    requires b > 0
    ensures Pow(b, e) > 0
  {
    if e > 0 { PowPositive(b, e - 1); }
  }

  lemma {:induction false} PowMonotone(b: nat, x: nat, y: nat)
    requires b > 0 && x <= y
    ensures Pow(b, x) <= Pow(b, y)
  {
    if x < y {
      PowMonotone(b, x, y - 1);
      MulAtLeast(Pow(b, y - 1), b);
    }
  }

  // ---- divisibility and greatest common divisors ----

  /** `g = s * a + t * b` with `g` the greatest common divisor. */
  function Bezout(a: nat, b: nat): (r: (nat, int, int))
    ensures r.0 == r.1 * a + r.2 * b
    ensures a + b > 0 ==> r.0 > 0 && a % r.0 == 0 && b % r.0 == 0
    decreases b
  {
    if b == 0 then
      assert a > 0 ==> a % a == 0 by { if a > 0 { DivModUnique(a, a, 1, 0); } }
      (a, 1, 0)
    else
      var (g, s, t) := Bezout(b, a % b);
      BezoutStep(a, b, g, s, t);
      (g, t, s - t * (a / b))
  }

  lemma BezoutStep(a: nat, b: nat, g: nat, s: int, t: int)
    requires b > 0 && g > 0 && b % g == 0 && (a % b) % g == 0 && g == s * b + t * (a % b)
    ensures g == t * a + (s - t * (a / b)) * b && a % g == 0
  {
    var q := a / b;
    assert a == b * q + a % b;
    assert t * a == t * (b * q) + t * (a % b) by { MulDistributes(t, b * q, a % b); }
    assert (s - t * q) * b == s * b - t * q * b by { MulDistributes(b, s, -(t * q)); }
    assert t * (b * q) == t * q * b by { MulAssoc(t, b, q); MulAssoc(t, q, b); }
    DivisibleCombination(b, q, a % b, 1, g);
  }

  lemma DivisibleCombination(x: int, s: int, y: int, t: int, d: nat)
    requires d > 0 && x % d == 0 && y % d == 0
    ensures (x * s + y * t) % d == 0
  {
    var i, j := x / d, y / d;
    assert x * s == (i * s) * d by { MulAssoc(i, s, d); MulAssoc(i, d, s); }
    assert y * t == (j * t) * d by { MulAssoc(j, t, d); MulAssoc(j, d, t); }
    assert x * s + y * t == (i * s + j * t) * d by { MulDistributes(d, i * s, j * t); }
    DivModUnique(x * s + y * t, d, i * s + j * t, 0);
  }

  function Gcd(a: nat, b: nat): nat { Bezout(a, b).0 }

  ghost predicate IsPrime(p: nat) { p >= 2 && forall d :: 1 < d < p ==> p % d != 0 }

  /** A prime and a number it does not divide have a linear combination one. */
  lemma CoprimeToPrime(a: nat, p: nat)
    requires IsPrime(p) && a % p != 0
    ensures Gcd(a, p) == 1
  {
    var g := Gcd(a, p);
    if g == p {
      assert false;
    } else if g > p {
      ModSmall(p, g);
      assert false;
    }
  }

  /** Euclid's lemma, for any divisor coprime to one factor. */
  lemma EuclidsLemma(a: nat, b: int, m: nat)
    requires m > 0 && Gcd(a, m) == 1 && (a * b) % m == 0
    ensures b % m == 0
  {
    var (g, s, t) := Bezout(a, m);
    assert b == (a * b) * s + m * (t * b) by {
      assert b == (s * a + t * m) * b;
      MulDistributes(b, s * a, t * m);
      MulAssoc(s, a, b);
      MulAssoc(m, t, b);
    }
    DivModUnique(m, m, 1, 0);
    DivisibleCombination(a * b, s, m, t * b, m);
  }

  // ---- modular inverses ----

  ghost predicate IsInverse(x: nat, a: nat, m: nat) { m > 1 && x < m && (a * x) % m == 1 }

  ghost predicate HasInverse(a: nat, m: nat) { exists x :: IsInverse(x, a, m) }

  /** The inverse of `a` modulo `m`. */
  function InvMod(a: nat, m: nat): (x: nat)
    requires m > 1 && Gcd(a, m) == 1
    ensures IsInverse(x, a, m)
  {
    var (g, s, t) := Bezout(a, m);
    InverseFromBezout(a, m, s, t);
    s % m
  }

  lemma InverseFromBezout(a: nat, m: nat, s: int, t: int)
    requires m > 1 && 1 == s * a + t * m
    ensures (a * (s % m)) % m == 1
  {
    ModMulRight(a, s, m);
    assert a * s == 1 + (0 - t) * m by { MulSub(m, 0, t); }
    ModShift(1, 0 - t, m);
    ModSmall(1, m);
  }

  /** Only numbers coprime to the modulus have an inverse. */
  lemma InverseMeansCoprime(x: nat, a: nat, m: nat)
    requires IsInverse(x, a, m)
    ensures Gcd(a, m) == 1
  {
    var g := Gcd(a, m);
    var q := (a * x) / m;
    assert 1 == a * x + m * -q;
    DivisibleCombination(a, x, m, -q, g);
    if g > 1 { ModSmall(1, g); assert false; }
  }

  /** An inverse of the remainder is one of the number itself. */
  lemma InverseOfRemainder(x: nat, a: nat, m: nat)
    requires m > 1
    ensures IsInverse(x, a % m, m) <==> IsInverse(x, a, m)
  {
    ModMulRight(x, a, m);
    assert (a % m) * x == x * (a % m) && a * x == x * a;
  }

  // ---- Fermat's little theorem ----

  /** The product of a finite set of numbers. */
  ghost function Product(s: set<nat>): nat {
    if s == {} then 1 else var x :| x in s; x * Product(s - {x})
  }

  lemma {:induction false} ProductRemove(s: set<nat>, y: nat)
    requires y in s
    ensures Product(s) == y * Product(s - {y})
  {
    var x :| x in s && Product(s) == x * Product(s - {x});
    if x != y {
      ProductRemove(s - {x}, y);
      ProductRemove(s - {y}, x);
      assert s - {x} - {y} == s - {y} - {x};
      var r := Product(s - {x} - {y});
      MulAssoc(x, y, r);
      MulAssoc(y, x, r);
    }
  }

  ghost function Upto(n: nat): set<nat> { if n == 0 then {} else Upto(n - 1) + {n} }

  lemma {:induction false} UptoContents(n: nat)
    ensures forall i: nat :: i in Upto(n) <==> 1 <= i <= n
    ensures |Upto(n)| == n
  {
    if n > 0 { UptoContents(n - 1); }
  }

  ghost function Factorial(n: nat): nat { if n == 0 then 1 else n * Factorial(n - 1) }

  lemma {:induction false} ProductUpto(n: nat)
    ensures Product(Upto(n)) == Factorial(n)
  {
    if n > 0 {
      ProductUpto(n - 1);
      UptoContents(n - 1);
      ProductRemove(Upto(n), n);
      assert Upto(n) - {n} == Upto(n - 1);
    }
  }

  /** The multiples `a, 2a, .., na` modulo `p`. */
  ghost function Multiples(a: nat, p: nat, n: nat): set<nat>
    requires p > 0
  {
    if n == 0 then {} else Multiples(a, p, n - 1) + {a * n % p}
  }

  /** Different multiples have different remainders. */
  lemma MultiplesDistinct(a: nat, p: nat, i: nat, j: nat)
    requires IsPrime(p) && a % p != 0 && 1 <= i < j < p
    ensures a * i % p != a * j % p
  {
    SameRemainder(a * i, a * j, p);
    MulSub(a, j, i);
    MultipleNotZero(a, p, j - i);
  }

  lemma MultipleNotZero(a: nat, p: nat, n: nat)
    requires IsPrime(p) && a % p != 0 && 1 <= n < p
    ensures a * n % p != 0
  {
    if a * n % p == 0 {
      CoprimeToPrime(a, p);
      EuclidsLemma(a, n, p);
      ModSmall(n, p);
      assert false;
    }
  }

  lemma {:induction false} MultiplesContents(a: nat, p: nat, n: nat)
    requires IsPrime(p) && a % p != 0 && n < p
    ensures Multiples(a, p, n) <= Upto(p - 1) && |Multiples(a, p, n)| == n
    ensures forall j :: n < j < p ==> a * j % p !in Multiples(a, p, n)
  {
    UptoContents(p - 1);
    if n > 0 {
      MultiplesContents(a, p, n - 1);
      MultipleNotZero(a, p, n);
      forall j | n < j < p ensures a * j % p !in Multiples(a, p, n) { MultiplesDistinct(a, p, n, j); }
    }
  }

  lemma {:induction false} ProductMultiples(a: nat, p: nat, n: nat)
    requires IsPrime(p) && a % p != 0 && n < p
    ensures Product(Multiples(a, p, n)) % p == Pow(a, n) * Factorial(n) % p
  {
    if n > 0 {
      var s, x := Multiples(a, p, n - 1), a * n % p;
      ProductMultiples(a, p, n - 1);
      MultiplesContents(a, p, n - 1);
      ProductRemove(s + {x}, x);
      assert s + {x} - {x} == s;
      ModMul(x, Product(s), p);
      ModMul(a * n, Pow(a, n - 1) * Factorial(n - 1), p);
      ModSmall(x, p);
      assert a * n * (Pow(a, n - 1) * Factorial(n - 1)) == Pow(a, n) * Factorial(n) by {
        FourProduct(a, n, Pow(a, n - 1), Factorial(n - 1));
      }
    }
  }

  lemma FourProduct(a: int, b: int, c: int, d: int)
    ensures a * b * (c * d) == (a * c) * (b * d)
  {
    MulAssoc(a * b, c, d);
    MulAssoc(a, b, c);
    MulAssoc(a, c, b);
    MulAssoc(a * c, b, d);
  }

  lemma {:induction false} FactorialCoprime(p: nat, n: nat)
    requires IsPrime(p) && n < p
    ensures Factorial(n) % p != 0
  {
    if n == 0 {
      ModSmall(1, p);
    } else {
      FactorialCoprime(p, n - 1);
      ModSmall(n, p);
      if Factorial(n) % p == 0 {
        CoprimeToPrime(n, p);
        EuclidsLemma(n, Factorial(n - 1), p);
        assert false;
      }
    }
  }

  /** Fermat's little theorem. */
  lemma Fermat(a: nat, p: nat)
    requires IsPrime(p) && a % p != 0
    ensures Pow(a, p - 1) % p == 1
  {
    var f, w := Factorial(p - 1), Pow(a, p - 1);
    MultiplesContents(a, p, p - 1);
    ProductMultiples(a, p, p - 1);
    UptoContents(p - 1);
    SubsetOfSameSize(Multiples(a, p, p - 1), Upto(p - 1));
    ProductUpto(p - 1);
    FactorialCoprime(p, p - 1);
    CancelFactor(f, w, p);
  }

  lemma SubsetOfSameSize(s: set<nat>, t: set<nat>)
    requires s <= t && |s| == |t|
    ensures s == t
  {
    if s != t {
      var x :| x in t && x !in s;
      SubsetNotLarger(s, t - {x});
      assert false;
    }
  }

  lemma {:induction false} SubsetNotLarger(s: set<nat>, t: set<nat>)
    requires s <= t
    ensures |s| <= |t|
    decreases s
  {
    if s != {} {
      var x :| x in s;
      SubsetNotLarger(s - {x}, t - {x});
    }
  }

  /** A factor coprime to the modulus cancels. */
  lemma CancelFactor(f: nat, w: nat, p: nat)
    requires IsPrime(p) && f % p != 0 && w * f % p == f % p
    ensures w % p == 1
  {
    ModSmall(1, p);
    SameRemainder(f, w * f, p);
    assert f * (w - 1) == w * f - f by { MulSub(f, w, 1); }
    CoprimeToPrime(f, p);
    EuclidsLemma(f, w - 1, p);
    SameRemainder(1, w, p);
  }

  // ---- RSA ----

  /** Raising to `e` and then to its inverse modulo p - 1 is the identity modulo
      an odd prime p, for every number, multiples of p included. */
  lemma ExponentsCancel(x: nat, e: nat, d: nat, p: nat)
    requires IsPrime(p) && p > 2 && (e * d) % (p - 1) == 1
    ensures Pow(Pow(x, e), d) % p == x % p
  {
    PowPow(x, e, d);
    var n, k := FullRounds(e * d, p - 1);
    if x % p == 0 {
      PowOfMultiple(x, n, p);
    } else {
      PowFullRounds(x, n, k, p);
      PowTimesOne(x, n, p);
    }
  }

  lemma FullRounds(z: nat, m: nat) returns (n: nat, k: nat)
    requires m > 0 && z % m == 1
    ensures z == n + 1 && n == m * k
  {
    n, k := z - 1, z / m;
  }

  lemma PowOfMultiple(x: nat, n: nat, p: nat)
    requires p > 0 && x % p == 0
    ensures Pow(x, n + 1) % p == 0
  {
    ModMul(x, Pow(x, n), p);
    ModSmall(0, p);
  }

  lemma PowTimesOne(x: nat, n: nat, p: nat)
    requires p > 1 && Pow(x, n) % p == 1
    ensures Pow(x, n + 1) % p == x % p
  {
    ModMul(x, Pow(x, n), p);
    ModSmall(x % p, p);
  }

  lemma PowFullRounds(x: nat, n: nat, k: nat, p: nat)
    requires IsPrime(p) && x % p != 0 && n == (p - 1) * k
    ensures Pow(x, n) % p == 1
  {
    PowPow(x, p - 1, k);
    Fermat(x, p);
    PowMod(Pow(x, p - 1), k, p);
    PowOfOne(k);
    ModSmall(1, p);
  }

  lemma {:induction false} PowOfOne(k: nat)
    ensures Pow(1, k) == 1
  {
    if k > 0 { PowOfOne(k - 1); }
  }

  /** Chinese remainder theorem, uniqueness: two numbers below p * q that agree
      modulo both of two coprime numbers are equal. */
  lemma RemaindersDetermine(x: nat, y: nat, p: nat, q: nat)
    requires p > 0 && q > 0 && Gcd(p, q) == 1 && x < p * q && y < p * q
    requires x % p == y % p && x % q == y % q
    ensures x == y
  {
    if x < y {
      RemaindersDetermineOrdered(x, y, p, q);
    } else if y < x {
      RemaindersDetermineOrdered(y, x, p, q);
    }
  }

  lemma RemaindersDetermineOrdered(x: nat, y: nat, p: nat, q: nat)
    requires p > 0 && q > 0 && Gcd(p, q) == 1 && x <= y < p * q
    requires x % p == y % p && x % q == y % q
    ensures x == y
  {
    SameRemainder(x, y, p);
    SameRemainder(x, y, q);
    CoprimeProductDivides(y - x, p, q);
    ModSmall(y - x, p * q);
  }

  lemma CoprimeProductDivides(z: nat, p: nat, q: nat)
    requires p > 0 && q > 0 && p * q > 0 && Gcd(p, q) == 1 && z % p == 0 && z % q == 0
    ensures z % (p * q) == 0
  {
    var i := ExactQuotient(z, p);
    EuclidsLemma(p, i, q);
    var l := ExactQuotient(i, q);
    MulAssoc(p, q, l);
    DivModUnique(z, p * q, l, 0);
  }

  lemma ExactQuotient(z: int, d: nat) returns (i: int)
    requires d > 0 && z % d == 0
    ensures z == d * i
  {
    i := z / d;
  }
}
