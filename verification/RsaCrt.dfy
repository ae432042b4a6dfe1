/** RSA decryption with the Chinese remainder theorem and Garner's recombination
    (crypto/src/rsa/crt.rs). */
module RsaCrt {
  import opened Arith
  import opened NumberTheory
  import opened Cmpa

  /** `RsaPrivateKeyCrt`. */
  datatype PrivateKey = PrivateKey(pLen: nat, p: nat, qLen: nat, q: nat, dP: nat, dQ: nat, pInvModQ: nat)

  /** What decryption relies on. Nothing here says that p or q is prime. */
  ghost predicate Usable(k: PrivateKey) {
    && k.p % 2 == 1 && k.q % 2 == 1 && k.q > 1
    && k.p < Cap(k.pLen) && k.q < Cap(k.qLen)
    && k.dP < Cap(k.pLen) && k.dQ < Cap(k.qLen)
    && IsInverse(k.pInvModQ, k.p, k.q)
  }

  /** `x` is the number below p * q with the given remainders. */
  ghost predicate Recombines(x: nat, xp: nat, xq: nat, p: nat, q: nat)
    requires p > 0 && q > 0
  {
    x < p * q && x % p == xp % p && x % q == xq % q
  }

  // ---- Garner's algorithm ----

  /** The signed difference of the remainders, reduced modulo q: q itself when the
      difference is a negative multiple of q. */
  ghost function ReducedDifference(xp: nat, xq: nat, q: nat): (h: nat)
    requires q > 0
    ensures h <= q
  {
    if xq < xp then q - (xp - xq) % q else (xq - xp) % q
  }

  lemma ReducedDifferenceOk(xp: nat, xq: nat, q: nat)
    requires q > 0
    ensures (xp + ReducedDifference(xp, xq, q)) % q == xq % q
  {
    var h := ReducedDifference(xp, xq, q);
    if xq < xp {
      var d := xp - xq;
      assert xp + h == xq + (d / q + 1) * q by { MulDistributes(q, d / q, 1); }
      ModShift(xq, d / q + 1, q);
    } else {
      var d := xq - xp;
      assert xp + h == xq + (0 - d / q) * q by { MulSub(q, 0, d / q); }
      ModShift(xq, 0 - d / q, q);
    }
  }

  /** Garner's formula gives the recombined number, whatever representative of
      the difference modulo q it starts from. */
  lemma GarnerRecombines(xp: nat, xq: nat, h: nat, g: nat, i: nat, p: nat, q: nat)
    requires IsInverse(i, p, q) && xp < p && (xp + h) % q == xq % q && g == h * i % q
    ensures Recombines(xp + g * p, xp, xq, p, q)
  {
    GarnerBelow(xp, g, p, q);
    ModShift(xp, g, p);
    InverseCancels(h, i, p, q);
    ModAdd(xp, g * p, q);
    ModAdd(xp, h, q);
  }

  lemma GarnerBelow(xp: nat, g: nat, p: nat, q: nat)
    requires xp < p && g < q
    ensures xp + g * p < p * q
  {
    MulSub(p, q, g);
    MulAtLeast(p, q - g);
  }

  lemma InverseCancels(h: nat, i: nat, p: nat, q: nat)
    requires IsInverse(i, p, q)
    ensures h * i % q * p % q == h % q
  {
    ModMulRight(p, h * i, q);
    assert p * (h * i) == h * (p * i) by { MulAssoc(p, h, i); MulAssoc(h, p, i); }
    ModMulRight(h, p * i, q);
  }

  // ---- decryption ----

  /** `decrypt`. The ciphertext buffer must be as wide as the modulus; its value
      need not be below the modulus. */
  method Decrypt(k: PrivateKey, y: Mp, garbage: nat)
    requires Usable(k) && y.Valid() && k.p * k.q <= Cap(y.len)
    modifies y
    ensures y.Valid()
    ensures Recombines(y.val, Pow(old(y.val), k.dP), Pow(old(y.val), k.dQ), k.p, k.q)
  {
    var maxLen := if k.pLen > k.qLen then k.pLen else k.qLen;
    var scratch := new Mp(LimbAligned(if y.len > maxLen + k.qLen then y.len else maxLen + k.qLen), garbage);
    var c := y.val;
    // x_p, which then moves into y.
    var xP := ExpReduced(c, y.len, k.p, k.pLen, k.dP, garbage);
    CopyFitting(y, xP, k);
    // x_q.
    var xQ := ExpReduced(c, y.len, k.q, k.qLen, k.dQ, garbage);
    Garner(k, y, xQ, scratch);
    ModSmall(xP, k.p);
    ModSmall(xQ, k.q);
  }

  /** Moving a remainder modulo p into the ciphertext buffer. */
  method CopyFitting(y: Mp, xP: nat, k: PrivateKey)
    requires Usable(k) && k.p * k.q <= Cap(y.len) && xP < k.p
    modifies y
    ensures y.Valid() && y.val == xP
  {
    MulAtLeast(k.p, k.q);
    ModSmall(xP, Cap(y.len));
    y.CopyFrom(xP);
  }

  /** Reduce the ciphertext modulo one prime and exponentiate there. */
  method ExpReduced(y: nat, yLen: nat, m: nat, mLen: nat, d: nat, garbage: nat) returns (x: nat)
    requires y < Cap(yLen) && m % 2 == 1 && m < Cap(mLen) && d < Cap(mLen)
    ensures x == Pow(y, d) % m
  {
    var wide := new Mp(LimbAligned(if yLen > mLen then yLen else mLen), garbage);
    CapMonotone(yLen, wide.len);
    wide.CopyFrom(y);
    ModSmall(y, Cap(wide.len));
    wide.Mod(m);
    var base := new Mp(LimbAligned(mLen), wide.val);
    CapMonotone(mLen, base.len);
    ModSmall(wide.val, Cap(base.len));
    var result := new Mp(LimbAligned(mLen), garbage);
    result.ExpModOdd(base, m, d, 8 * mLen, garbage);
    BytesAndBits(mLen);
    ModSmall(d, Cap(mLen));
    PowMod(y, d, m);
    x := result.val;
  }

  /** The recombination, with x_p in `y` and everything else in one recycled
      buffer. */
  method Garner(k: PrivateKey, y: Mp, xQ: nat, scratch: Mp)
    requires Usable(k) && y.Valid() && scratch.Valid() && y != scratch
    requires y.val < k.p && xQ < k.q && k.p * k.q <= Cap(y.len)
    requires scratch.len >= (if k.pLen > k.qLen then k.pLen else k.qLen) + k.qLen
    modifies y, scratch
    ensures y.Valid() && Recombines(y.val, old(y.val), xQ, k.p, k.q)
  {
    ghost var xP := y.val;
    ScratchWidths(k, scratch.len);
    Difference(scratch, y.val, xQ, k.q);
    ghost var h := scratch.val;
    Multiply(scratch, k.qLen, k.pInvModQ, k.qLen);
    scratch.Mod(k.q);
    ghost var g := scratch.val;
    Multiply(scratch, k.qLen, k.p, k.pLen);
    ReducedDifferenceOk(xP, xQ, k.q);
    GarnerRecombines(xP, xQ, h, g, k.pInvModQ, k.p, k.q);
    AddFitting(y, scratch.val);
  }

  /** The difference of the remainders modulo q, computed without branching on
      its sign. */
  method Difference(scratch: Mp, xP: nat, xQ: nat, q: nat)
    requires scratch.Valid() && xP < Cap(scratch.len) && xQ < q < Cap(scratch.len)
    modifies scratch
    ensures scratch.Valid() && scratch.val == ReducedDifference(xP, xQ, q)
  {
    ghost var w := Cap(scratch.len);
    scratch.CopyFrom(xQ);
    ModSmall(xQ, w);
    var isNegative := scratch.Sub(xP);
    scratch.NegateCond(isNegative);
    NegatedDifference(xP, xQ, w);
    scratch.Mod(q);
    ghost var r := scratch.val;
    scratch.NegateCond(isNegative);
    scratch.AddCond(q, isNegative);
    RestoredSign(r, q, w);
  }

  /** A multiplication that does not truncate. */
  method Multiply(scratch: Mp, inLen: nat, v: nat, vLen: nat)
    requires scratch.Valid() && scratch.val < Cap(inLen) && v < Cap(vLen) && Cap(inLen + vLen) <= Cap(scratch.len)
    modifies scratch
    ensures scratch.Valid() && scratch.val == old(scratch.val) * v
  {
    ghost var x := scratch.val;
    ModSmall(x, Cap(inLen));
    ProductFits(x, inLen, v, vLen);
    ModSmall(x * v, Cap(scratch.len));
    scratch.MulTrunc(inLen, v);
  }

  /** An addition that does not carry out of the buffer. */
  method AddFitting(y: Mp, v: nat)
    requires y.Valid() && y.val + v < Cap(y.len)
    modifies y
    ensures y.Valid() && y.val == old(y.val) + v
  {
    ModSmall(y.val + v, Cap(y.len));
    y.AddCond(v, true);
  }

  /** All intermediate results of the recombination fit the recycled buffer. */
  lemma ScratchWidths(k: PrivateKey, len: nat)
    requires Usable(k) && len >= (if k.pLen > k.qLen then k.pLen else k.qLen) + k.qLen
    ensures k.p < Cap(len) && k.q < Cap(len)
    ensures Cap(k.qLen + k.qLen) <= Cap(len) && Cap(k.qLen + k.pLen) <= Cap(len)
  {
    CapMonotone(k.pLen, len);
    CapMonotone(k.qLen, len);
    CapMonotone(k.qLen + k.qLen, len);
    CapMonotone(k.qLen + k.pLen, len);
  }

  /** Negating the wrapped-around negative difference gives its absolute value. */
  lemma NegatedDifference(xp: nat, xq: nat, w: nat)
    requires xp < w && xq < w
    ensures xq < xp ==> (0 - (xq - xp) % w) % w == xp - xq
    ensures xq >= xp ==> (xq - xp) % w == xq - xp
  {
    if xq < xp {
      DivModUnique(xq - xp, w, -1, w - (xp - xq));
      DivModUnique(0 - (w - (xp - xq)), w, -1, xp - xq);
    } else {
      ModSmall(xq - xp, w);
    }
  }

  /** Negating the reduced absolute value and adding q gives q minus it, also
      when it is zero. */
  lemma RestoredSign(r: nat, q: nat, w: nat)
    requires r < q < w
    ensures ((0 - r) % w + q) % w == q - r
  {
    if r == 0 {
      ModSmall(0, w);
      ModSmall(q, w);
    } else {
      DivModUnique(0 - r, w, -1, w - r);
      DivModUnique(w - r + q, w, 1, q - r);
    }
  }
}
