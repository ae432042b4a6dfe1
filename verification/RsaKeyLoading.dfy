/** Loading of RSA private keys from one prime factor (crypto/src/rsa/crt.rs,
    crypto/src/rsa/keygen.rs). */
module RsaKeyLoading {
  import opened Arith
  import opened NumberTheory
  import opened Cmpa
  import opened RsaCrt
  import opened Results

  const MIN_PUBLIC_EXPONENT: nat := 0x010001

  /** `public_exponent_is_valid`. */
  predicate ValidExponent(e: nat) { e >= MIN_PUBLIC_EXPONENT && e % 2 == 1 && e < CapBits(256) }

  /** The exponents the key holds undo the public one. */
  ghost predicate Inverts(k: PrivateKey, e: nat) {
    && k.p > 1 && IsInverse(k.dP, e, k.p - 1)
    && k.q > 1 && IsInverse(k.dQ, e, k.q - 1)
  }

  /** Loading succeeds exactly for these inputs. */
  ghost predicate Loadable(n: nat, nLen: nat, p: nat, pLen: nat, e: nat) {
    && 0x010001 <= e < Pow(2, 256) && e % 2 == 1 && e < n
    && Divides(n, nLen, p, pLen)
    && PairLoadable(p, n / p, e)
  }
  ghost predicate Divides(n: nat, nLen: nat, p: nat, pLen: nat) {
    && 0 < pLen <= nLen && n % 2 == 1 && p % 2 == 1
    && n % p == 0 && n / p < Cap(LimbAligned(nLen - pLen + 1))
  }
  ghost predicate PairLoadable(p: nat, q: nat, e: nat) {
    && p > 1 && HasInverse(e, p - 1)
    && q > 1 && HasInverse(e, q - 1)
    && HasInverse(p, q)
  }

  /** `new_from_p`. */
  method NewFromP(n: nat, nLen: nat, p: nat, pLen: nat, e: nat, eLen: nat) returns (r: Result<PrivateKey>)
    requires n < Cap(nLen) && p < Cap(pLen) && e < Cap(eLen)
    ensures r.Ok? <==> Loadable(n, nLen, p, pLen, e)
    ensures r.Ok? ==> Usable(r.value) && Inverts(r.value, e) && r.value.p == p && r.value.p * r.value.q == n
    ensures e < 0x010001 || e >= Pow(2, 256) || e % 2 == 0 ==> r == Err(InvalidParams)
    ensures 0x010001 <= e < Pow(2, 256) && e % 2 == 1 && (e >= n || n % 2 == 0 || p % 2 == 0) ==> r == Err(InvalidPoint)
  {
    if !ValidExponent(e) { return Err(InvalidParams); }
    if e >= n { return Err(InvalidPoint); }
    var pBuf := new Mp(LimbAligned(pLen), p);
    CapMonotone(pLen, pBuf.len);
    ModSmall(p, Cap(pBuf.len));
    var rq := ComputeQ(n, nLen, p, pLen);
    if rq.Err? { return Err(rq.error); }
    var qBuf := new Mp(LimbAligned(rq.value.1), rq.value.0);
    CapMonotone(rq.value.1, qBuf.len);
    ModSmall(rq.value.0, Cap(qBuf.len));
    r := NewFromPQ(pLen, pBuf, rq.value.1, qBuf, e, eLen);
  }

  /** The number of bytes up to the last one that is not zero. */
  function ByteLen(v: nat): nat { if v == 0 then 0 else 1 + ByteLen(v / 256) }

  lemma {:induction false} ByteLenFits(v: nat)
    ensures v < Cap(ByteLen(v)) && (v > 0 ==> ByteLen(v) > 0 && Cap(ByteLen(v) - 1) <= v)
  {
    if v > 0 { ByteLenFits(v / 256); }
  }

  predicate BadShape(n: nat, nLen: nat, p: nat, pLen: nat) {
    nLen == 0 || pLen == 0 || pLen > nLen || n % 2 == 0 || p % 2 == 0
  }

  /** `compute_q`: the other factor and its length in bytes. */
  method ComputeQ(n: nat, nLen: nat, p: nat, pLen: nat) returns (r: Result<(nat, nat)>)
    requires n < Cap(nLen) && p < Cap(pLen) && n > 0
    ensures r.Ok? <==> Divides(n, nLen, p, pLen)
    ensures r.Ok? ==> var (q, qLen) := r.value; q == n / p && qLen > 0 && Cap(qLen - 1) <= q < Cap(qLen) && p * q == n && q % 2 == 1
    ensures BadShape(n, nLen, p, pLen) ==> r == Err(InvalidPoint)
    ensures !BadShape(n, nLen, p, pLen) && n / p >= Cap(LimbAligned(nLen - pLen + 1)) ==> r == Err(Internal)
    ensures !BadShape(n, nLen, p, pLen) && n / p < Cap(LimbAligned(nLen - pLen + 1)) && n % p != 0 ==> r == Err(KeyBinding)
  {
    if BadShape(n, nLen, p, pLen) { return Err(InvalidPoint); }
    var q, remainder := Divide(n, nLen, p);
    if q >= Cap(LimbAligned(nLen - pLen + 1)) { return Err(Internal); }
    if remainder != 0 { return Err(KeyBinding); }
    ByteLenFits(q);
    OddFactor(n, p, q);
    assert q != 0;
    r := Ok((q, ByteLen(q)));
  }

  /** A factor without leading zero bytes always leaves a quotient that fits. */
  lemma QuotientFits(n: nat, nLen: nat, p: nat, pLen: nat)
    requires n < Cap(nLen) && 0 < pLen <= nLen && p >= Cap(pLen - 1)
    ensures n / p < Cap(LimbAligned(nLen - pLen + 1))
  {
    var m := nLen - pLen + 1;
    PowAdd(256, pLen - 1, m);
    CapMonotone(m, LimbAligned(m));
    QuotientBelow(n, p, Cap(pLen - 1), Cap(m));
  }

  /** With them it may not: 3 in a buffer as wide as the modulus 3 * (2^64 + 1). */
  lemma QuotientTooWide()
    ensures var n, p := 3 * 0x1_0000_0000_0000_0001, 3;
            && n < Cap(17) && p < Cap(17) && !BadShape(n, 17, p, 17) && n % p == 0
            && n / p >= Cap(LimbAligned(17 - 17 + 1))
  {
    assert Pow(256, 2) == 0x1_0000 by { assert Pow(256, 1) == 256; }
    PowAdd(256, 2, 2);
    PowAdd(256, 4, 4);
    assert Cap(8) == 0x1_0000_0000_0000_0000;
    assert Cap(9) == 256 * Cap(8);
    CapMonotone(9, 17);
    assert LimbAligned(1) == 8;
  }

  lemma QuotientBelow(n: nat, p: nat, a: nat, c: nat)
    requires n < a * c && p >= a > 0
    ensures n / p < c
  {
    assert a * c <= p * c;
    assert n == p * (n / p) + n % p;
  }

  /** `ct_div_mp_mp`, which leaves the remainder in the copy of the dividend. */
  method Divide(n: nat, nLen: nat, p: nat) returns (q: nat, remainder: nat)
    requires n < Cap(nLen) && p > 0
    ensures q == n / p && remainder == n % p
  {
    var copy := new Mp(LimbAligned(nLen), n);
    CapMonotone(nLen, copy.len);
    ModSmall(n, Cap(copy.len));
    copy.Mod(p);
    q, remainder := n / p, copy.val;
  }

  lemma OddFactor(n: nat, p: nat, q: nat)
    requires n % 2 == 1 && p > 0 && n % p == 0 && q == n / p
    ensures p * q == n && q % 2 == 1
  {
    ModMul(p, q, 2);
  }

  /** `new_from_p_q`. The buffers of p and q are changed for a while and restored. */
  method NewFromPQ(pLen: nat, p: Mp, qLen: nat, q: Mp, e: nat, eLen: nat) returns (r: Result<PrivateKey>)
    requires p.Valid() && q.Valid() && p != q && p.val % 2 == 1 && q.val % 2 == 1 && e < Cap(eLen)
    requires p.val < Cap(pLen) && q.val < Cap(qLen)
    modifies p, q
    ensures p.val == old(p.val) && q.val == old(q.val)
    ensures r.Ok? <==> PairLoadable(p.val, q.val, e)
    ensures r.Ok? ==> Usable(r.value) && Inverts(r.value, e) && r.value.p == p.val && r.value.q == q.val
    ensures r.Err? ==> r.error == KeyBinding
  {
    var dP := ComputeDP(e, eLen, p);
    if dP.Err? { return Err(dP.error); }
    var dQ := ComputeDP(e, eLen, q);
    if dQ.Err? { return Err(dQ.error); }
    // `compute_p_inv_mod_q`.
    var pInv := ReduceAndInvert(p.val, pLen, q.val, qLen);
    if pInv.None? { return Err(KeyBinding); }
    r := Ok(PrivateKey(pLen, p.val, qLen, q.val, dP.value, dQ.value, pInv.value));
  }

  /** `compute_d_p`: the inverse of e modulo p - 1. */
  method ComputeDP(e: nat, eLen: nat, p: Mp) returns (r: Result<nat>)
    requires p.Valid() && p.val % 2 == 1 && e < Cap(eLen)
    modifies p
    ensures p.Valid() && p.val == old(p.val)
    ensures r.Ok? <==> p.val > 1 && HasInverse(e, p.val - 1)
    ensures r.Ok? ==> IsInverse(r.value, e, p.val - 1)
    ensures r.Err? ==> r.error == KeyBinding
  {
    assert p.len > 0;
    p.SetBit0(false);
    if p.val == 0 {
      p.SetBit0(true);
      return Err(KeyBinding);
    }
    var inverse := ReduceAndInvert(e, eLen, p.val, p.len);
    p.SetBit0(true);
    r := match inverse case Some(d) => Ok(d) case None => Err(KeyBinding);
  }

  /** Reduce `a` modulo `m` in a buffer wide enough for both, then invert. */
  method ReduceAndInvert(a: nat, aLen: nat, m: nat, mLen: nat) returns (r: Option<nat>)
    requires m > 1 && a < Cap(aLen)
    ensures r.Some? <==> HasInverse(a, m)
    ensures r.Some? ==> IsInverse(r.value, a, m)
  {
    var wide := new Mp(LimbAligned(if mLen > aLen then mLen else aLen), a);
    CapMonotone(aLen, wide.len);
    ModSmall(a, Cap(wide.len));
    wide.Mod(m);
    r := InverseModulo(wide.val, m);
    forall x ensures IsInverse(x, a % m, m) <==> IsInverse(x, a, m) { InverseOfRemainder(x, a, m); }
  }
}
