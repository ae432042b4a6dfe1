/** Random elliptic-curve scalars by oversampling (crypto/src/ecc/gen_random_scalar.rs;
    TCG TPM2 Library, Part 1, section C.5). */
module RandomScalar {
  import opened Arith
  import opened NumberTheory
  import opened Cmpa
  import opened Bytes
  import opened Results

  /** Bytes drawn in excess of the width of the order. */
  const EXTRA: nat := 8

  /** How far the drawn bits are shifted right: an order of `nbits` bits leaves
      that many bits of its topmost byte unused. */
  function ShiftDistance(nbits: nat): (d: nat) ensures d < 8 { if nbits % 8 == 0 then 0 else 8 - nbits % 8 }

  // ---- bitwise or ----

  function BitOr(a: nat, b: nat): nat {
    if a == 0 && b == 0 then 0 else (if a % 2 == 1 || b % 2 == 1 then 1 else 0) + 2 * BitOr(a / 2, b / 2)
  }

  /** Numbers without a common bit: or is addition. */
  lemma {:induction false} BitOrDisjoint(a: nat, t: nat, k: nat)
    requires a < CapBits(k)
    ensures BitOr(a, t * CapBits(k)) == a + t * CapBits(k)
    decreases k, t
  {
    var b := t * CapBits(k);
    if k == 0 {
      BitOrZero(t);
    } else {
      BitOrDisjoint(a / 2, t, k - 1);
      HalfProduct(t, CapBits(k - 1));
    }
  }

  lemma {:induction false} BitOrZero(t: nat)
    ensures BitOr(0, t) == t
  {
    if t > 0 { BitOrZero(t / 2); }
  }

  lemma HalfProduct(t: nat, c: nat)
    ensures t * (2 * c) / 2 == t * c && t * (2 * c) % 2 == 0
  {
    assert t * (2 * c) == 2 * (t * c);
  }

  // ---- splitting one shift into two ----

  /** Shifting the high and the low part separately and moving the bits that fall
      out of the high part into the low one is shifting the whole. */
  lemma SplitShift(high: nat, low: nat, c: nat, s: nat, w: nat)
    requires s > 0 && w == c * s
    ensures (high * w + low) / s == high / s * w + (high % s * c + low / s)
  {
    var q, r := high / s, high % s;
    var k := q * w + (r * c + low / s);
    assert high * w == q * w * s + r * c * s by {
      assert high == q * s + r;
      MulDistributes(w, q * s, r);
      assert q * s * w == q * w * s by { MulAssoc(q, s, w); MulAssoc(q, w, s); }
      MulAssoc(r, c, s);
    }
    assert k * s == q * w * s + r * c * s + low / s * s by {
      MulDistributes(s, q * w, r * c + low / s);
      MulDistributes(s, r * c, low / s);
    }
    assert high * w + low == k * s + low % s;
    DivModUnique(high * w + low, s, k, low % s);
  }

  /** The bytes in the topmost limb of a number of `len` bytes. */
  function HighLimbBytes(len: nat): (h: nat)
    requires len > 0
    ensures 1 <= h <= LIMB && h <= len
  {
    (len - 1) % LIMB + 1
  }

  /** `ct_rshift_mp` on one limb: the quotient, and the bits shifted out at the top
      of a limb. */
  function ShiftLimb(v: nat, d: nat): (nat, nat)
    requires 0 < d < 8
  {
    (v / CapBits(d), v % CapBits(d) * CapBits(8 * LIMB - d))
  }

  /** The shift across `extra` and `result`: the bits leaving `extra` are aligned
      to and or-ed into the topmost limb of `result`. */
  method ShiftAcross(extra: nat, result: nat, len: nat, d: nat) returns (extra': nat, result': nat)
    requires len > 0 && result < Cap(len) && extra < Cap(EXTRA) && 0 < d < 8
    ensures extra' * Cap(len) + result' == (extra * Cap(len) + result) / CapBits(d)
    ensures result' < Cap(len)
  {
    var (shifted, shiftedOut) := ShiftLimb(extra, d);
    extra' := shifted;
    var low := result / CapBits(d);
    ghost var r := extra % CapBits(d);
    HighLimbFits(result, len, HighLimbBytes(len), d);
    result' := OrIntoTopLimb(low, len, shiftedOut, r, d);
    Widths(len, d);
    SplitShift(extra, result, CapBits(8 * len - d), CapBits(d), Cap(len));
    ResultFits(r, low, len, d, result);
  }

  /** The read-modify-write of the topmost limb. */
  method OrIntoTopLimb(low: nat, len: nat, shiftedOut: nat, ghost r: nat, ghost d: nat) returns (result: nat)
    requires len > 0 && 0 < d < 8 && shiftedOut == r * CapBits(8 * LIMB - d)
    requires low / Cap(len - HighLimbBytes(len)) < CapBits(8 * HighLimbBytes(len) - d)
    ensures result == low + r * CapBits(8 * len - d)
  {
    var h := HighLimbBytes(len);
    AlignShiftedOut(r, d, h);
    var shiftIn := shiftedOut / CapBits(8 * (LIMB - h));
    var limb := low / Cap(len - h);
    BitOrDisjoint(limb, r, 8 * h - d);
    var limb' := BitOr(limb, shiftIn);
    StoredLimb(low, limb, r, len, h, d);
    result := low % Cap(len - h) + limb' * Cap(len - h);
  }

  /** The shifted-out bits end up right above the bits left in the top limb. */
  lemma AlignShiftedOut(r: nat, d: nat, h: nat)
    requires 0 < d < 8 && 1 <= h <= LIMB
    ensures r * CapBits(8 * LIMB - d) / CapBits(8 * (LIMB - h)) == r * CapBits(8 * h - d)
  {
    var x, y := CapBits(8 * h - d), CapBits(8 * (LIMB - h));
    PowAdd(2, 8 * h - d, 8 * (LIMB - h));
    MulAssoc(r, x, y);
    DivModUnique(r * x * y, y, r * x, 0);
  }

  lemma HighLimbFits(result: nat, len: nat, h: nat, d: nat)
    requires 1 <= h <= len && 0 < d < 8 && result < Cap(len)
    ensures result / CapBits(d) / Cap(len - h) < CapBits(8 * h - d)
  {
    Widths(len, d);
    QuotientBelow(result, CapBits(8 * len - d), CapBits(d));
    BytesAndBits(len - h);
    PowAdd(2, 8 * h - d, 8 * (len - h));
    QuotientBelow(result / CapBits(d), CapBits(8 * h - d), Cap(len - h));
  }

  lemma QuotientBelow(v: nat, a: nat, b: nat)
    requires b > 0 && v < a * b
    ensures v / b < a
  {
    var q := v / b;
    if q >= a { MulSub(b, q, a); }
  }

  lemma Widths(len: nat, d: nat)
    requires len > 0 && d < 8
    ensures Cap(len) == CapBits(8 * len - d) * CapBits(d)
  {
    BytesAndBits(len);
    PowAdd(2, 8 * len - d, d);
  }

  lemma StoredLimb(low: nat, limb: nat, r: nat, len: nat, h: nat, d: nat)
    requires 1 <= h <= len && 0 < d < 8 && limb == low / Cap(len - h)
    ensures low % Cap(len - h) + (limb + r * CapBits(8 * h - d)) * Cap(len - h) == low + r * CapBits(8 * len - d)
  {
    var c, x := Cap(len - h), CapBits(8 * h - d);
    BytesAndBits(len - h);
    PowAdd(2, 8 * h - d, 8 * (len - h));
    MulDistributes(c, limb, r * x);
    MulAssoc(r, x, c);
  }

  lemma ResultFits(r: nat, low: nat, len: nat, d: nat, result: nat)
    requires len > 0 && 0 < d < 8 && r < CapBits(d) && result < Cap(len) && low == result / CapBits(d)
    ensures low + r * CapBits(8 * len - d) < Cap(len)
  {
    var c, s := CapBits(8 * len - d), CapBits(d);
    Widths(len, d);
    QuotientBelow(result, c, s);
    MulSub(c, s, r);
    MulAtLeast(c, s - r);
  }

  /** `tcg_tpm2_gen_random_ec_scalar` with the bytes the generator delivers: the
      bits drawn, cut to 64 more than the order has, modulo order - 1, plus one. */
  method GenRandomScalar(result: Mp, order: nat, orderLen: nat, nbits: nat, random: seq<byte>) returns (r: Result<()>)
    requires 3 <= order < Cap(orderLen) && orderLen == (nbits + 7) / 8
    requires |random| == EXTRA + result.len
    modifies result
    ensures r.Ok? <==> result.len == orderLen
    ensures r.Err? ==> r.error == Internal && result.val == old(result.val)
    ensures r.Ok? ==> result.val == 1 + BE(random) / CapBits(8 * orderLen - nbits) % (order - 1)
    ensures r.Ok? ==> result.Valid() && 1 <= result.val <= order - 1
  {
    if result.len != orderLen { return Err(Internal); }
    assert 8 * orderLen - nbits == ShiftDistance(nbits);
    var extra, low := BE(random[..EXTRA]), BE(random[EXTRA..]);
    BEBound(random[..EXTRA]);
    BEBound(random[EXTRA..]);
    assert random == random[..EXTRA] + random[EXTRA..];
    BEConcat(random[..EXTRA], random[EXTRA..]);
    if nbits % 8 != 0 {
      extra, low := ShiftAcross(extra, low, orderLen, ShiftDistance(nbits));
    }
    // `ct_mod_mp_mp` takes the high part separately.
    var v := (extra * Cap(orderLen) + low) % (order - 1);
    ModSmall(v + 1, Cap(orderLen));
    result.CopyFrom(v + 1);
    r := Ok(());
  }

  /** What is reduced are exactly the first `nbits` + 64 bits drawn. */
  lemma DrawnBits(random: seq<byte>, nbits: nat)
    requires nbits > 0 && |random| == EXTRA + (nbits + 7) / 8
    ensures BE(random) / CapBits((nbits + 7) / 8 * 8 - nbits) < CapBits(nbits + 64)
  {
    var d := ShiftDistance(nbits);
    BEBound(random);
    BytesAndBits(|random|);
    assert 8 * |random| == nbits + 64 + d;
    PowAdd(2, nbits + 64, d);
    QuotientBelow(BE(random), CapBits(nbits + 64), CapBits(d));
  }
}
