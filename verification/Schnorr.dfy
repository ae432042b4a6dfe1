/** EC Schnorr signatures over an abstract group of prime order
    (crypto/src/ecc/ecschnorr.rs; TCG TPM2 Library, Part 1, sections C.4.3.2 and
    C.4.3.3). */
module Schnorr {
  import opened Arith
  import opened NumberTheory
  import opened Cmpa
  import opened Bytes
  import opened Results
  import opened RandomScalar

  /** A group with a generator, and the encoding of a point's x coordinate. */
  datatype Curve<!P> = Curve(
    order: nat, orderLen: nat, nbits: nat,
    add: (P, P) -> P, identity: P, generator: P, x: P -> seq<byte>)

  ghost predicate Assoc<P>(c: Curve<P>, a: P, b: P, d: P) { c.add(a, c.add(b, d)) == c.add(c.add(a, b), d) }
  ghost predicate Commutes<P>(c: Curve<P>, a: P, b: P) { c.add(a, b) == c.add(b, a) }
  ghost predicate Neutral<P>(c: Curve<P>, a: P) { c.add(c.identity, a) == a }

  /** An abelian group whose generator has an odd prime order. */
  ghost predicate IsCurve<P(!new)>(c: Curve<P>) {
    && IsPrime(c.order) && c.order > 2 && c.order < Cap(c.orderLen) && c.orderLen == (c.nbits + 7) / 8
    && (forall a, b, d :: Assoc(c, a, b, d))
    && (forall a, b :: Commutes(c, a, b))
    && (forall a :: Neutral(c, a))
    && Mul(c, c.order, c.generator) == c.identity
  }

  /** Scalar multiplication. */
  function Mul<P>(c: Curve<P>, k: nat, p: P): P {
    if k == 0 then c.identity else c.add(p, Mul(c, k - 1, p))
  }

  lemma {:induction false} MulSum<P(!new)>(c: Curve<P>, a: nat, b: nat, p: P)
    requires IsCurve(c)
    ensures Mul(c, a + b, p) == c.add(Mul(c, a, p), Mul(c, b, p))
  {
    if a == 0 {
      assert Neutral(c, Mul(c, b, p));
    } else {
      MulSum(c, a - 1, b, p);
      assert Assoc(c, p, Mul(c, a - 1, p), Mul(c, b, p));
    }
  }

  lemma {:induction false} MulMulPoint<P(!new)>(c: Curve<P>, a: nat, b: nat, p: P)
    requires IsCurve(c)
    ensures Mul(c, a, Mul(c, b, p)) == Mul(c, a * b, p)
  {
    if a > 0 {
      MulMulPoint(c, a - 1, b, p);
      MulSum(c, b, (a - 1) * b, p);
      assert b + (a - 1) * b == a * b by { MulSub(b, a, 1); }
    }
  }

  lemma {:induction false} MulIdentity<P(!new)>(c: Curve<P>, k: nat)
    requires IsCurve(c)
    ensures Mul(c, k, c.identity) == c.identity
  {
    if k > 0 {
      MulIdentity(c, k - 1);
      assert Neutral(c, c.identity);
    }
  }

  lemma MulMultiple<P(!new)>(c: Curve<P>, q: nat, p: P)
    requires IsCurve(c) && Mul(c, c.order, p) == c.identity
    ensures Mul(c, q * c.order, p) == c.identity
  {
    MulMulPoint(c, q, c.order, p);
    MulIdentity(c, q);
  }

  /** Scalars count modulo the order. */
  lemma MulReduced<P(!new)>(c: Curve<P>, k: nat, p: P)
    requires IsCurve(c) && Mul(c, c.order, p) == c.identity
    ensures Mul(c, k % c.order, p) == Mul(c, k, p)
  {
    MulReducedBy(c, k, k / c.order, k / c.order * c.order, k % c.order, p);
  }

  lemma MulReducedBy<P(!new)>(c: Curve<P>, k: nat, q: nat, m: nat, r: nat, p: P)
    requires IsCurve(c) && Mul(c, c.order, p) == c.identity && m == q * c.order && k == m + r
    ensures Mul(c, r, p) == Mul(c, k, p)
  {
    MulMultiple(c, q, p);
    MulDropsIdentity(c, m, r, p);
  }

  lemma MulDropsIdentity<P(!new)>(c: Curve<P>, m: nat, r: nat, p: P)
    requires IsCurve(c) && Mul(c, m, p) == c.identity
    ensures Mul(c, m + r, p) == Mul(c, r, p)
  {
    MulSum(c, m, r, p);
    assert Neutral(c, Mul(c, r, p));
  }

  /** No scalar below the order, which is prime, takes the generator to the identity. */
  lemma NeverIdentity<P(!new)>(c: Curve<P>, k: nat)
    requires IsCurve(c) && 1 <= k < c.order
    ensures Mul(c, k, c.generator) == c.identity <==> c.generator == c.identity
  {
    MulIdentity(c, k);
    if Mul(c, k, c.generator) == c.identity {
      ModSmall(k, c.order);
      CoprimeToPrime(k, c.order);
      var u := InvMod(k, c.order);
      MulMulPoint(c, u, k, c.generator);
      MulIdentity(c, u);
      MulReduced(c, u * k, c.generator);
      assert u * k % c.order == 1 by { assert u * k == k * u; }
      MulOne(c, c.generator);
    }
  }

  lemma MulOne<P(!new)>(c: Curve<P>, p: P)
    requires IsCurve(c)
    ensures Mul(c, 1, p) == p
  {
    assert Mul(c, 0, p) == c.identity && Commutes(c, p, c.identity) && Neutral(c, p);
  }

  // ---- the verification equation ----

  /** `ct_negate_mod_mp`. */
  function NegMod(r: nat, n: nat): nat requires r < n { if r == 0 then 0 else n - r }

  /** The point verification computes: s * G + (-r) * Q. */
  function Commitment<P>(c: Curve<P>, q: P, r: nat, s: nat): P
    requires c.order > 0
  {
    c.add(Mul(c, s, c.generator), Mul(c, NegMod(r % c.order, c.order), q))
  }

  lemma NegationCancels<P(!new)>(c: Curve<P>, q: P, r: nat)
    requires IsCurve(c) && Mul(c, c.order, q) == c.identity
    ensures c.add(Mul(c, NegMod(r % c.order, c.order), q), Mul(c, r, q)) == c.identity
  {
    var n, r' := c.order, r % c.order;
    MulReduced(c, r, q);
    MulSum(c, NegMod(r', n), r', q);
  }

  /** It is the only point that r * Q completes to s * G. */
  lemma CommitmentIsDifference<P(!new)>(c: Curve<P>, q: P, r: nat, s: nat, e: P)
    requires IsCurve(c) && Mul(c, c.order, q) == c.identity
    ensures e == Commitment(c, q, r, s) <==> c.add(e, Mul(c, r, q)) == Mul(c, s, c.generator)
  {
    var t, u, v := Mul(c, r, q), Mul(c, NegMod(r % c.order, c.order), q), Mul(c, s, c.generator);
    NegationCancels(c, q, r);
    assert Assoc(c, v, u, t) && Commutes(c, v, c.identity) && Neutral(c, v);
    assert Assoc(c, e, t, u) && Commutes(c, t, u) && Commutes(c, e, c.identity) && Neutral(c, e);
  }

  /** The signature equation: k * G + r * Q == s * G. */
  lemma SignatureEquation<P(!new)>(c: Curve<P>, k: nat, r: nat, d: nat, s: nat)
    requires IsCurve(c) && s == (k + (r % c.order) * d % c.order) % c.order
    ensures c.add(Mul(c, k, c.generator), Mul(c, r, Mul(c, d, c.generator))) == Mul(c, s, c.generator)
  {
    ScalarEquation(k, r, d, c.order);
    MulMulPoint(c, r, d, c.generator);
    SumReduced(c, k, r * d, k + r * d, s);
  }

  lemma SumReduced<P(!new)>(c: Curve<P>, k: nat, z: nat, t: nat, s: nat)
    requires IsCurve(c) && t == k + z && s == t % c.order
    ensures c.add(Mul(c, k, c.generator), Mul(c, z, c.generator)) == Mul(c, s, c.generator)
  {
    ReducedScalar(c, t, s);
    MulSum(c, k, z, c.generator);
  }

  lemma ReducedScalar<P(!new)>(c: Curve<P>, z: nat, s: nat)
    requires IsCurve(c) && s == z % c.order
    ensures Mul(c, s, c.generator) == Mul(c, z, c.generator)
  {
    MulReduced(c, z, c.generator);
  }

  lemma ScalarEquation(k: nat, r: nat, d: nat, n: nat)
    requires n > 0
    ensures (k + (r % n) * d % n) % n == (k + r * d) % n
  {
    assert (r % n) * d % n == r * d % n by { ModMulRight(d, r, n); }
    ModAddRight(k, r * d, n);
  }

  /** A public key belongs to the group the generator generates. */
  lemma PublicKeyInGroup<P(!new)>(c: Curve<P>, d: nat)
    requires IsCurve(c)
    ensures Mul(c, c.order, Mul(c, d, c.generator)) == c.identity
  {
    MulMulPoint(c, c.order, d, c.generator);
    MulMulPoint(c, d, c.order, c.generator);
    MulIdentity(c, d);
    assert c.order * d == d * c.order;
  }

  // ---- signing and verifying ----

  /** The leftmost bytes, as many as the order has. */
  function Cut(r: seq<byte>, n: nat): seq<byte> { if |r| > n then r[..n] else r }

  /** What makes a signature valid. */
  ghost predicate IsSignature<P(!new)>(c: Curve<P>, h: seq<byte> -> seq<byte>, q: P, digest: seq<byte>,
                                       r: seq<byte>, s: seq<byte>)
  {
    && 0 < BE(s) < c.order && BE(r) < Cap(c.orderLen)
    && exists e :: IsCommitment(c, h, q, digest, r, s, e)
  }
  ghost predicate IsCommitment<P(!new)>(c: Curve<P>, h: seq<byte> -> seq<byte>, q: P, digest: seq<byte>,
                                        r: seq<byte>, s: seq<byte>, e: P)
  {
    && e != c.identity && c.add(e, Mul(c, BE(r), q)) == Mul(c, BE(s), c.generator)
    && var hashed := h(c.x(e) + digest);
       BE(r) == BE(if |hashed| <= c.orderLen then hashed else hashed[..c.orderLen])
  }

  /** A signature binds its commitment and the digest: with a hash without collisions that
      is not cut, one challenge belongs to one of both, whatever the keys are. */
  lemma ChallengeBinds<P(!new)>(c: Curve<P>, h: seq<byte> -> seq<byte>, len: nat, r: seq<byte>,
                                q1: P, digest1: seq<byte>, s1: seq<byte>, e1: P, q2: P, digest2: seq<byte>, s2: seq<byte>, e2: P)
    requires IsCommitment(c, h, q1, digest1, r, s1, e1) && IsCommitment(c, h, q2, digest2, r, s2, e2)
    requires len <= c.orderLen && forall x {:trigger h(x)} :: |h(x)| == len
    requires forall x, y {:trigger h(x), h(y)} :: h(x) == h(y) ==> x == y
    requires |c.x(e1)| == |c.x(e2)|
    ensures c.x(e1) == c.x(e2) && digest1 == digest2
  {
    var x, y := c.x(e1) + digest1, c.x(e2) + digest2;
    ToBEOfBE(h(x));
    ToBEOfBE(h(y));
    assert x == y;
    assert c.x(e1) == x[..|c.x(e1)|] && c.x(e2) == y[..|c.x(e1)|];
    assert digest1 == x[|c.x(e1)|..] && digest2 == y[|c.x(e1)|..];
  }

  /** `verify` accepts exactly the valid signatures. */
  method Verify<P(!new, ==)>(c: Curve<P>, h: seq<byte> -> seq<byte>, q: P, digest: seq<byte>,
                             r: seq<byte>, s: seq<byte>) returns (result: Result<()>)
    requires IsCurve(c) && Mul(c, c.order, q) == c.identity
    ensures result.Ok? <==> IsSignature(c, h, q, digest, r, s)
    ensures result.Err? ==> result.error == SignatureVerificationFailure
  {
    if BE(s) == 0 || BE(s) >= c.order || BE(r) >= Cap(c.orderLen) { return Err(SignatureVerificationFailure); }
    var e := Commitment(c, q, BE(r), BE(s));
    forall e' ensures e' == e <==> c.add(e', Mul(c, BE(r), q)) == Mul(c, BE(s), c.generator) {
      CommitmentIsDifference(c, q, BE(r), BE(s), e');
    }
    if e == c.identity || BE(r) != BE(Cut(h(c.x(e) + digest), c.orderLen)) {
      return Err(SignatureVerificationFailure);
    }
    assert IsCommitment(c, h, q, digest, r, s, e);
    result := Ok(());
  }

  const MAX_RETRIES: nat := 16

  /** The scalar for the bytes drawn. */
  function Drawn<P>(c: Curve<P>, random: seq<byte>): (k: nat)
    requires c.order > 2
    ensures 1 <= k < c.order
  {
    1 + BE(random) / CapBits((c.nbits + 7) / 8 * 8 - c.nbits) % (c.order - 1)
  }

  /** An attempt is repeated for a challenge or a signature of zero, and for no other
      reason unless the generator is the identity. */
  predicate Repeats<P(==)>(c: Curve<P>, h: seq<byte> -> seq<byte>, digest: seq<byte>, priv: Option<nat>, k: nat)
    requires c.order > 2
  {
    var hashed := h(c.x(Mul(c, k, c.generator)) + digest);
    var r := BE(if |hashed| <= c.orderLen then hashed else hashed[..c.orderLen]) % c.order;
    c.generator == c.identity || r == 0 || (priv.Some? && (k + r * priv.value % c.order) % c.order == 0)
  }

  /** `sign`: whatever it returns is a valid signature. `draws` are the bytes the
      generator delivers in each attempt. */
  method Sign<P(!new, ==)>(c: Curve<P>, h: seq<byte> -> seq<byte>, digest: seq<byte>, priv: Option<nat>,
                           draws: nat -> seq<byte>) returns (result: Result<(seq<byte>, seq<byte>)>)
    requires IsCurve(c) && (priv.Some? ==> priv.value < c.order)
    requires forall i: nat :: |draws(i)| == EXTRA + c.orderLen
    ensures result.Ok? ==>
      priv.Some? && IsSignature(c, h, Mul(c, priv.value, c.generator), digest, result.value.0, result.value.1)
    ensures result.Err? ==> result.error == RandomSamplingRetriesExceeded || (result.error == NoKey && priv.None?)
    ensures result == Err(RandomSamplingRetriesExceeded) <==>
      forall i: nat {:trigger draws(i)} :: i < MAX_RETRIES ==> Repeats(c, h, digest, priv, Drawn(c, draws(i)))
  {
    var remaining := MAX_RETRIES;
    while remaining > 0
      invariant remaining <= MAX_RETRIES
      invariant forall i: nat {:trigger draws(i)} :: i < MAX_RETRIES - remaining ==> Repeats(c, h, digest, priv, Drawn(c, draws(i)))
    {
      remaining := remaining - 1;
      var attempt := SignOnce(c, h, digest, priv, draws(MAX_RETRIES - remaining - 1));
      if attempt.Some? { return attempt.value; }
    }
    result := Err(RandomSamplingRetriesExceeded);
  }

  /** One attempt, or nothing if it has to be repeated. */
  method SignOnce<P(!new, ==)>(c: Curve<P>, h: seq<byte> -> seq<byte>, digest: seq<byte>, priv: Option<nat>,
                               random: seq<byte>) returns (result: Option<Result<(seq<byte>, seq<byte>)>>)
    requires IsCurve(c) && (priv.Some? ==> priv.value < c.order) && |random| == EXTRA + c.orderLen
    ensures result.Some? && result.value.Ok? ==>
      priv.Some? && IsSignature(c, h, Mul(c, priv.value, c.generator), digest, result.value.value.0, result.value.value.1)
    ensures result.Some? && result.value.Err? ==> result.value == Err(NoKey) && priv.None?
    ensures result.None? <==> Repeats(c, h, digest, priv, Drawn(c, random))
  {
    var k := DrawScalar(c, random);
    result := SignWith(c, h, digest, priv, k);
  }

  method DrawScalar<P(!new)>(c: Curve<P>, random: seq<byte>) returns (k: nat)
    requires IsCurve(c) && |random| == EXTRA + c.orderLen
    ensures k == Drawn(c, random)
  {
    var kBuf := new Mp(c.orderLen, 0);
    var generated := GenRandomScalar(kBuf, c.order, c.orderLen, c.nbits, random);
    k := kBuf.val;
  }

  method SignWith<P(!new, ==)>(c: Curve<P>, h: seq<byte> -> seq<byte>, digest: seq<byte>, priv: Option<nat>, k: nat)
    returns (result: Option<Result<(seq<byte>, seq<byte>)>>)
    requires IsCurve(c) && (priv.Some? ==> priv.value < c.order) && 1 <= k < c.order
    ensures result.Some? && result.value.Ok? ==>
      priv.Some? && IsSignature(c, h, Mul(c, priv.value, c.generator), digest, result.value.value.0, result.value.value.1)
    ensures result.Some? && result.value.Err? ==> result.value == Err(NoKey) && priv.None?
    ensures result.None? <==> Repeats(c, h, digest, priv, k)
  {
    NeverIdentity(c, k);
    var e := Mul(c, k, c.generator);
    if e == c.identity { return None; }
    var rBuf := Cut(h(c.x(e) + digest), c.orderLen);
    var r := BE(rBuf) % c.order;
    if r == 0 { return None; }
    if priv.None? { return Some(Err(NoKey)); }
    var d := priv.value;
    var rd := MontgomeryProduct(r, d, c.order, c.orderLen);
    var s := (k + rd) % c.order;
    if s == 0 { return None; }
    var sBuf := ToBE(s, c.orderLen);
    ValidBySigning(c, h, digest, d, k, rBuf, s);
    result := Some(Ok((rBuf, sBuf)));
  }

  lemma ValidBySigning<P(!new)>(c: Curve<P>, h: seq<byte> -> seq<byte>, digest: seq<byte>, d: nat, k: nat,
                                r: seq<byte>, s: nat)
    requires IsCurve(c) && Mul(c, k, c.generator) != c.identity
    requires r == Cut(h(c.x(Mul(c, k, c.generator)) + digest), c.orderLen)
    requires 0 < s == (k + (BE(r) % c.order) * d % c.order) % c.order
    ensures IsSignature(c, h, Mul(c, d, c.generator), digest, r, ToBE(s, c.orderLen))
  {
    BEOfToBE(s, c.orderLen);
    BEBound(r);
    CapMonotone(|r|, c.orderLen);
    SignatureEquation(c, k, BE(r), d, s);
    assert IsCommitment(c, h, Mul(c, d, c.generator), digest, r, ToBE(s, c.orderLen), Mul(c, k, c.generator));
  }

  /** `sign` then `verify`, for a matching key pair. */
  method SignThenVerify<P(!new, ==)>(c: Curve<P>, h: seq<byte> -> seq<byte>, digest: seq<byte>, d: nat,
                                     draws: nat -> seq<byte>)
      returns (signed: Result<(seq<byte>, seq<byte>)>, verified: Result<()>)
    requires IsCurve(c) && d < c.order
    requires forall i: nat :: |draws(i)| == EXTRA + c.orderLen
    ensures signed.Ok? ==> verified.Ok?
  {
    signed := Sign(c, h, digest, Some(d), draws);
    if signed.Err? { return signed, Err(signed.error); }
    PublicKeyInGroup(c, d);
    verified := Verify(c, h, Mul(c, d, c.generator), digest, signed.value.0, signed.value.1);
  }

  // ---- Montgomery arithmetic ----

  /** The product modulo the order through Montgomery form: both factors times the
      radix, one product and one reduction divided by it. */
  method MontgomeryProduct(r: nat, d: nat, n: nat, len: nat) returns (rd: nat)
    requires IsPrime(n) && n > 2
    ensures rd == r * d % n
  {
    var radix := CapBits(8 * LimbAligned(len));
    RadixInvertible(8 * LimbAligned(len), n);
    var inverse := InvMod(radix, n);
    var mgR := r * radix % n;
    var mgD := d * radix % n;
    var mgProduct := mgR * mgD % n * inverse % n;
    rd := mgProduct * inverse % n;
    MontgomeryIsProduct(r, d, n, radix, inverse);
  }

  lemma {:induction false} RadixInvertible(bits: nat, n: nat)
    requires IsPrime(n) && n > 2
    ensures CapBits(bits) % n != 0 && Gcd(CapBits(bits), n) == 1
  {
    if bits == 0 {
      ModSmall(1, n);
    } else {
      RadixInvertible(bits - 1, n);
      ModSmall(2, n);
      if CapBits(bits) % n == 0 {
        CoprimeToPrime(2, n);
        EuclidsLemma(2, CapBits(bits - 1), n);
        assert false;
      }
    }
    CoprimeToPrime(CapBits(bits), n);
  }

  /** Dividing by the radix undoes multiplying by it. */
  lemma RadixCancels(v: nat, n: nat, radix: nat, inverse: nat)
    requires IsInverse(inverse, radix, n)
    ensures v * radix % n * inverse % n == v % n
  {
    ModMulRight(inverse, v * radix, n);
    assert inverse * (v * radix) == v * (radix * inverse) by { MulAssoc(inverse, v, radix); MulAssoc(v, inverse, radix); }
    ModMulRight(v, radix * inverse, n);
  }

  lemma MontgomeryIsProduct(r: nat, d: nat, n: nat, radix: nat, inverse: nat)
    requires IsInverse(inverse, radix, n)
    ensures (r * radix % n) * (d * radix % n) % n * inverse % n * inverse % n == r * d % n
  {
    ModMul(r * radix, d * radix, n);
    assert r * radix * (d * radix) == r * d * radix * radix by {
      FourProduct(r, radix, d, radix);
      MulAssoc(r * d, radix, radix);
    }
    RadixCancels(r * d * radix, n, radix, inverse);
    RadixCancels(r * d, n, radix, inverse);
  }
}
