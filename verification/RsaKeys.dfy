/** RSA keys, the RSA encryption and decryption primitives, and RSAES-PKCS1-v1_5
    (crypto/src/rsa/key.rs, crypto/src/rsa/encrypt.rs,
    crypto/src/rsa/es_pkcs1_v1_5.rs). */
module RsaKeys {
  import opened Arith
  import opened NumberTheory
  import opened Cmpa
  import opened Bytes
  import opened Results
  import opened RsaCrt
  import opened RsaKeyLoading
  import opened Pkcs1Padding

  /** `RsaPublicKey`: the modulus in big-endian bytes. */
  datatype PublicKey = PublicKey(modulus: seq<byte>, e: nat)

  /** `RsaKey`. */
  datatype Key = Key(pub: PublicKey, priv: Option<PrivateKey>)

  function Modulus(pub: PublicKey): nat { BE(pub.modulus) }

  /** The two parts of the key belong together. */
  ghost predicate Matching(key: Key) {
    key.priv.Some? ==>
      && Usable(key.priv.value) && Inverts(key.priv.value, key.pub.e)
      && key.priv.value.p * key.priv.value.q == Modulus(key.pub)
  }

  // ---- the RSA permutation ----

  /** Decrypting what was encrypted gives back every number below the modulus,
      those divisible by one of the primes included. */
  lemma DecryptUndoesEncrypt(k: PrivateKey, e: nat, x: nat, y: nat, x': nat)
    requires Usable(k) && Inverts(k, e) && IsPrime(k.p) && IsPrime(k.q)
    requires x < k.p * k.q && y == Pow(x, e) % (k.p * k.q)
    requires Recombines(x', Pow(y, k.dP), Pow(y, k.dQ), k.p, k.q)
    ensures x' == x
  {
    FactorRoundTrip(x, e, y, k.dP, k.p, k.q);
    FactorRoundTrip(x, e, y, k.dQ, k.q, k.p);
    InverseMeansCoprime(k.pInvModQ, k.p, k.q);
    RemaindersDetermine(x', x, k.p, k.q);
  }

  lemma FactorRoundTrip(x: nat, e: nat, y: nat, d: nat, p: nat, q: nat)
    requires IsPrime(p) && p > 2 && q > 0 && IsInverse(d, e, p - 1) && y == Pow(x, e) % (p * q)
    ensures Pow(y, d) % p == x % p
  {
    ModOfMultiple(Pow(x, e), p, q);
    PowMod(y, d, p);
    PowMod(Pow(x, e), d, p);
    ExponentsCancel(x, e, d, p);
  }

  lemma ModOfMultiple(z: nat, p: nat, q: nat)
    requires p > 0 && q > 0
    ensures p * q > 0 && z % (p * q) % p == z % p
  {
    var t := z / (p * q);
    assert z == z % (p * q) + q * t * p by { MulAssoc(p, q, t); }
    ModShift(z % (p * q), q * t, p);
  }

  /** Encrypting what was decrypted gives back every number below the modulus. */
  lemma EncryptUndoesDecrypt(k: PrivateKey, e: nat, y: nat, x: nat)
    requires Usable(k) && Inverts(k, e) && IsPrime(k.p) && IsPrime(k.q)
    requires y < k.p * k.q && Recombines(x, Pow(y, k.dP), Pow(y, k.dQ), k.p, k.q)
    ensures Pow(x, e) % (k.p * k.q) == y
  {
    FactorRoundTripBack(x, e, y, k.dP, k.p, k.q);
    FactorRoundTripBack(x, e, y, k.dQ, k.q, k.p);
    InverseMeansCoprime(k.pInvModQ, k.p, k.q);
    RemaindersDetermine(Pow(x, e) % (k.p * k.q), y, k.p, k.q);
  }

  lemma FactorRoundTripBack(x: nat, e: nat, y: nat, d: nat, p: nat, q: nat)
    requires IsPrime(p) && p > 2 && q > 0 && IsInverse(d, e, p - 1) && x % p == Pow(y, d) % p
    ensures p * q > 0 && Pow(x, e) % (p * q) % p == y % p
  {
    ModOfMultiple(Pow(x, e), p, q);
    PowMod(x, e, p);
    PowMod(Pow(y, d), e, p);
    assert (d * e) % (p - 1) == 1 by { assert d * e == e * d; }
    ExponentsCancel(y, d, e, p);
  }

  // ---- primitives on buffers ----

  /** The number of bits up to the last set one. */
  function BitLen(v: nat): nat { if v == 0 then 0 else 1 + BitLen(v / 2) }

  lemma {:induction false} BitLenFits(v: nat)
    ensures v < CapBits(BitLen(v))
  {
    if v > 0 { BitLenFits(v / 2); }
  }

  /** `encrypt::encrypt` (RSAEP), reached through `RsaPublicKey::encrypt`. */
  method Encrypt(pub: PublicKey, x: Mp) returns (r: Result<()>)
    requires x.Valid()
    modifies x
    ensures x.Valid()
    ensures r.Ok? <==> x.len >= |pub.modulus| && Modulus(pub) % 2 == 1 && old(x.val) < Modulus(pub)
    ensures r.Ok? ==> x.val == Pow(old(x.val), pub.e) % Modulus(pub)
    ensures r.Err? ==> x.val == old(x.val)
    ensures x.len >= |pub.modulus| && Modulus(pub) % 2 == 0 ==> r == Err(InvalidParams)
    ensures Modulus(pub) % 2 == 1 && r.Err? ==> r.error == InvalidMessageLength
  {
    if x.len < |pub.modulus| { return Err(InvalidMessageLength); }
    var n := Modulus(pub);
    if n % 2 == 0 { return Err(InvalidParams); }
    if x.val >= n { return Err(InvalidMessageLength); }
    BEBound(pub.modulus);
    var v := ExpModulus(x.val, x.len, n, |pub.modulus|, pub.e);
    CapMonotone(|pub.modulus|, x.len);
    ModSmall(v, Cap(x.len));
    x.CopyFrom(v);
    r := Ok(());
  }

  method ExpModulus(x: nat, xLen: nat, n: nat, nLen: nat, e: nat) returns (v: nat)
    requires n % 2 == 1 && x < n <= Cap(nLen) && x < Cap(xLen)
    ensures v == Pow(x, e) % n
  {
    var base := new Mp(xLen, x);
    ModSmall(x, Cap(xLen));
    var result := new Mp(LimbAligned(nLen), 0);
    CapMonotone(nLen, result.len);
    result.ExpModOdd(base, n, e, BitLen(e), 0);
    BitLenFits(e);
    ModSmall(e, CapBits(BitLen(e)));
    v := result.val;
  }

  /** `RsaKey::decrypt` (RSADP with its range check). */
  method DecryptKey(key: Key, y: Mp) returns (r: Result<()>)
    requires y.Valid() && Matching(key)
    modifies y
    ensures y.Valid()
    ensures r.Ok? <==> y.len >= |key.pub.modulus| && old(y.val) < Modulus(key.pub) && key.priv.Some?
    ensures r.Ok? ==> var k := key.priv.value;
      Recombines(y.val, Pow(old(y.val), k.dP), Pow(old(y.val), k.dQ), k.p, k.q)
    ensures y.len < |key.pub.modulus| || old(y.val) >= Modulus(key.pub) ==> r == Err(InvalidMessageLength)
    ensures y.len >= |key.pub.modulus| && old(y.val) < Modulus(key.pub) && key.priv.None? ==> r == Err(NoKey)
  {
    if y.len < |key.pub.modulus| || y.val >= Modulus(key.pub) { return Err(InvalidMessageLength); }
    if key.priv.None? { return Err(NoKey); }
    BEBound(key.pub.modulus);
    CapMonotone(|key.pub.modulus|, y.len);
    Decrypt(key.priv.value, y, 0);
    r := Ok(());
  }

  // ---- keys ----

  /** The modulus is as wide as its buffer: the topmost bit is set. */
  ghost predicate FullWidth(modulus: seq<byte>) { |modulus| > 0 && modulus[0] >= 0x80 }

  /** `RsaPublicKey::try_from`. */
  method PublicKeyFrom(e: nat, modulus: seq<byte>) returns (r: Result<PublicKey>)
    ensures r.Ok? <==> 0x010001 <= e < Pow(2, 256) && e % 2 == 1 && FullWidth(modulus)
    ensures r.Ok? ==> r.value == PublicKey(modulus, e)
    ensures r.Err? ==> r.error == if 0x010001 <= e < Pow(2, 256) && e % 2 == 1 then InvalidPoint else InvalidParams
  {
    if !ValidExponent(e) { return Err(InvalidParams); }
    var n := BE(modulus);
    TopBit(modulus);
    if n == 0 || BitLen(n) < 8 * |modulus| { return Err(InvalidPoint); }
    r := Ok(PublicKey(modulus, e));
  }

  lemma {:induction false} BitLenAtLeast(v: nat, n: nat)
    ensures BitLen(v) > n <==> v >= CapBits(n)
  {
    if v > 0 && n > 0 { BitLenAtLeast(v / 2, n - 1); }
  }

  /** A number has all the bits of its buffer exactly if the topmost one is set. */
  lemma TopBit(s: seq<byte>)
    ensures BE(s) == 0 || BitLen(BE(s)) < 8 * |s| <==> !FullWidth(s)
  {
    if s != [] {
      var k := |s| - 1;
      FirstByte(s);
      BitLenAtLeast(BE(s), 8 * k + 7);
      BytesAndBits(k);
      PowAdd(2, 7, 8 * k);
      assert Pow(2, 7) == 128;
      TopByte(s[0], Cap(k), BE(s[1..]));
    }
  }

  lemma TopByte(b: byte, c: nat, rest: nat)
    requires rest < c
    ensures b * c + rest >= 128 * c <==> b >= 128
  {
    if b < 128 { MulSub(c, 128, b); MulAtLeast(c, 128 - b); } else { MulSub(c, b, 128); }
  }

  /** An encoded message is below every modulus with its topmost bit set. */
  lemma EncodedBelowModulus(em: seq<byte>, modulus: seq<byte>)
    requires |em| == |modulus| && FullWidth(modulus) && em[0] == 0
    ensures BE(em) < BE(modulus)
  {
    FirstByte(em);
    FirstByte(modulus);
    MulAtLeast(Cap(|em| - 1), modulus[0]);
  }

  /** `RsaKey::try_from` with a private part. */
  method KeyFrom(e: nat, modulus: seq<byte>, p: seq<byte>) returns (r: Result<Key>)
    requires e < Cap(4)
    ensures r.Ok? <==> FullWidth(modulus) && Loadable(BE(modulus), |modulus|, BE(p), |p|, e)
    ensures r.Ok? ==> Matching(r.value) && r.value.priv.Some? && r.value.priv.value.p == BE(p)
    ensures r.Ok? ==> r.value.pub == PublicKey(modulus, e)
  {
    var pub := PublicKeyFrom(e, modulus);
    if pub.Err? { return Err(pub.error); }
    BEBound(modulus);
    BEBound(p);
    var priv := NewFromP(BE(modulus), |modulus|, BE(p), |p|, e, 4);
    if priv.Err? { return Err(priv.error); }
    r := Ok(Key(pub.value, Some(priv.value)));
  }

  /** The modulus assembly of `RsaKey::generate` for two primes of `pLen` bytes:
      the product is not truncated. */
  method AssembleModulus(p: nat, q: nat, pLen: nat) returns (modulus: seq<byte>)
    requires p < Cap(pLen) && q < Cap(pLen)
    ensures |modulus| == 2 * pLen && BE(modulus) == p * q
  {
    var m := new Mp(2 * pLen, p);
    CapMonotone(pLen, 2 * pLen);
    ModSmall(p, Cap(2 * pLen));
    Multiply(m, pLen, q, pLen);
    modulus := ToBE(m.val, 2 * pLen);
    BEOfToBE(m.val, 2 * pLen);
  }

  // ---- RSAES-PKCS1-v1_5 ----

  /** `encrypt`: the ciphertext is the RSA image of a correctly padded message. */
  method EsEncrypt(x: seq<byte>, pub: PublicKey, rng: Rng) returns (r: Result<seq<byte>>, ghost ps: seq<byte>)
    ensures |pub.modulus| < |x| + 11 ==> r == Err(InvalidMessageLength)
    ensures r.Ok? ==> |ps| + |x| + 3 == |pub.modulus| && |ps| >= 8 && NoZero(ps)
    ensures r.Ok? ==> |r.value| == |pub.modulus| && Modulus(pub) > 0
    ensures r.Ok? ==> BE(r.value) == Pow(BE(Encoded(ps, x)), pub.e) % Modulus(pub)
    ensures r.Err? && |pub.modulus| >= |x| + 11 && FullWidth(pub.modulus) && Modulus(pub) % 2 == 1 ==>
      r.error == RandomSamplingRetriesExceeded || r.error == RngFailure
    ensures |pub.modulus| >= |x| + 11 && FullWidth(pub.modulus) && Modulus(pub) % 2 == 1 ==>
      && (NeverZero(rng) ==> r.Ok?)
      && (r == Err(RandomSamplingRetriesExceeded) ==> ZeroDrawn(rng, |pub.modulus| - |x| - 3))
      && (r == Err(RngFailure) ==> Fails(rng))
  {
    ps := [];
    var len := |pub.modulus|;
    if len < |x| + 11 { return Err(InvalidMessageLength), ps; }
    var encoded;
    encoded, ps := EncodePadded(x, len, rng);
    if encoded.Err? { return Err(encoded.error), ps; }
    var em := encoded.value;
    var y := new Mp(len, BE(em));
    BEBound(em);
    ModSmall(BE(em), Cap(len));
    if FullWidth(pub.modulus) { EncodedBelowModulus(em, pub.modulus); }
    var encrypted := Encrypt(pub, y);
    if encrypted.Err? { return Err(encrypted.error), ps; }
    BEOfToBE(y.val, len);
    r := Ok(ToBE(y.val, len));
  }

  /** The encoding step, on the buffer that becomes the ciphertext. */
  method EncodePadded(x: seq<byte>, len: nat, rng: Rng) returns (r: Result<seq<byte>>, ghost ps: seq<byte>)
    requires len >= |x| + 11
    ensures r.Ok? ==> |ps| == len - |x| - 3 && NoZero(ps) && r.value == Encoded(ps, x) && |r.value| == len
    ensures r.Err? ==> r.error == RandomSamplingRetriesExceeded || r.error == RngFailure
    ensures NeverZero(rng) ==> r.Ok?
    ensures r == Err(RandomSamplingRetriesExceeded) ==> ZeroDrawn(rng, len - |x| - 3)
    ensures r == Err(RngFailure) ==> Fails(rng)
  {
    var y := new byte[len](_ => 0);
    var m := len - |x|;
    y[0], y[1], y[m - 1] := 0, 2, 0;
    ghost var drawn;
    var filled, calls;
    filled, calls, drawn := FillPadding(y, 2, m - 1, rng);
    ps := y[2..m - 1];
    if filled.Err? {
      if filled.error == RandomSamplingRetriesExceeded { MoreDrawn(rng, calls - 1, drawn, m - 3); }
      return Err(filled.error), ps;
    }
    assert y[..2] == [0, 2];
    assert y[m - 1] == 0;
    for i := 0 to |x|
      invariant y[..m] == [0, 2] + ps + [0]
      invariant forall j :: 0 <= j < i ==> y[m + j] == x[j]
    {
      y[m + i] := x[i];
    }
    assert y[m..] == x;
    assert y[..] == y[..m] + y[m..];
    r := Ok(y[..]);
  }

  lemma MoreDrawn(rng: Rng, i: nat, n: nat, k: nat)
    requires n <= k && rng(i).Some? && !NoZeroDrawn(rng, i, n)
    ensures !NoZeroDrawn(rng, i, k)
  {
    var j: nat :| j < n && rng(i).value(j) == 0;
    assert j < k;
  }

  /** `decrypt`. */
  method EsDecrypt(y: seq<byte>, key: Key) returns (r: Result<seq<byte>>, ghost em: seq<byte>)
    requires Matching(key)
    ensures |y| != |key.pub.modulus| || |y| < 11 || BE(y) >= Modulus(key.pub) ==> r == Err(InvalidMessageLength)
    ensures |y| == |key.pub.modulus| >= 11 && BE(y) < Modulus(key.pub) && key.priv.None? ==> r == Err(NoKey)
    ensures |y| == |key.pub.modulus| >= 11 && BE(y) < Modulus(key.pub) && key.priv.Some? ==>
      var k := key.priv.value;
      && |em| == |y| && Recombines(BE(em), Pow(BE(y), k.dP), Pow(BE(y), k.dQ), k.p, k.q)
      && (r.Ok? <==> exists i :: PaddingEndsAt(em, i))
      && (forall i :: PaddingEndsAt(em, i) ==> r == Ok(em[i + 1..]))
      && (r.Err? ==> r.error == InvalidPadding)
  {
    em := [];
    if |y| != |key.pub.modulus| || |y| < 11 { return Err(InvalidMessageLength), em; }
    var buf := new Mp(|y|, BE(y));
    BEBound(y);
    ModSmall(BE(y), Cap(|y|));
    var decrypted := DecryptKey(key, buf);
    if decrypted.Err? { return Err(decrypted.error), em; }
    var bytes := ToBE(buf.val, |y|);
    BEOfToBE(buf.val, |y|);
    em := bytes;
    r := Decode(bytes);
  }

  /** End to end: for primes p and q, whatever message fits and whatever padding
      is drawn, decrypting the ciphertext returns the message. */
  method EsRoundTrip(x: seq<byte>, key: Key, rng: Rng) returns (c: Result<seq<byte>>, m: Result<seq<byte>>)
    requires Matching(key) && key.priv.Some? && FullWidth(key.pub.modulus)
    requires IsPrime(key.priv.value.p) && IsPrime(key.priv.value.q)
    ensures c.Ok? ==> m == Ok(x)
    ensures |x| + 11 <= |key.pub.modulus| && c.Err? ==>
      (c.error == RandomSamplingRetriesExceeded && ZeroDrawn(rng, |key.pub.modulus| - |x| - 3)) || (c.error == RngFailure && Fails(rng))
    ensures |x| + 11 <= |key.pub.modulus| && NeverZero(rng) ==> m == Ok(x)
  {
    var k := key.priv.value;
    OddProduct(k.p, k.q);
    ghost var ps;
    c, ps := EsEncrypt(x, key.pub, rng);
    if c.Err? { return c, c; }
    ghost var em;
    m, em := EsDecrypt(c.value, key);
    ghost var sent := Encoded(ps, x);
    EncodedBelowModulus(sent, key.pub.modulus);
    DecryptUndoesEncrypt(k, key.pub.e, BE(sent), BE(c.value), BE(em));
    ToBEOfBE(em);
    ToBEOfBE(sent);
    EncodedEnds(ps, x);
  }

  lemma OddProduct(p: nat, q: nat)
    requires p % 2 == 1 && q % 2 == 1
    ensures (p * q) % 2 == 1
  {
    ModMul(p, q, 2);
  }
}
