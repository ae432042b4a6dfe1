/** Multi-precision unsigned integers in buffers of a fixed number of bytes, with
    the operations of the `cmpa` crate the modelled code calls. Every operation
    that writes a buffer truncates to the buffer's width, so that the absence of
    truncation is something to be proved of the callers. */
module Cmpa {
  import opened Arith
  import opened NumberTheory
  import opened Results

  /** Bytes in a limb (64-bit targets). */
  const LIMB: nat := 8

  /** The number of values of `len` bytes. */
  function Cap(len: nat): (r: nat) ensures r > 0 { PowPositive(256, len); Pow(256, len) }

  /** The number of values of `n` bits. */
  function CapBits(n: nat): (r: nat) ensures r > 0 { PowPositive(2, n); Pow(2, n) }

  /** The byte length of a limb buffer for `len` bytes. */
  function LimbAligned(len: nat): (r: nat) ensures r >= len { (len + LIMB - 1) / LIMB * LIMB }

  lemma CapMonotone(x: nat, y: nat) requires x <= y ensures Cap(x) <= Cap(y) { PowMonotone(256, x, y); }

  /** The product of an x-byte and a y-byte number fits x + y bytes. */
  lemma ProductFits(a: nat, x: nat, b: nat, y: nat)
    requires a < Cap(x) && b < Cap(y)
    ensures a * b < Cap(x + y)
  {
    PowAdd(256, x, y);
    ProductBelow(a, Cap(x), b, Cap(y));
  }

  class Mp {
    const len: nat
    var val: nat

    ghost predicate Valid() reads this { val < Cap(len) }

    /** A view of `len` bytes with whatever contents the buffer has. */
    constructor (len: nat, contents: nat)
      ensures Valid() && this.len == len && val == contents % Cap(len)
    {
      this.len := len;
      this.val := contents % Cap(len);
    }

    /** `copy_from`. */
    method CopyFrom(v: nat)
      modifies this
      ensures Valid() && val == v % Cap(len)
    {
      val := v % Cap(len);
    }

    /** `set_bit_to(0, b)`. */
    method SetBit0(b: bool)
      requires Valid() && len > 0
      modifies this
      ensures Valid() && val == old(val) - old(val) % 2 + if b then 1 else 0
    {
      CapEven(len);
      val := val - val % 2 + if b then 1 else 0;
    }

    /** `ct_sub_mp_mp`, returning the borrow. */
    method Sub(v: nat) returns (borrow: bool)
      requires Valid()
      modifies this
      ensures Valid() && borrow == (old(val) < v) && val == (old(val) - v) % Cap(len)
    {
      borrow := val < v;
      val := (val - v) % Cap(len);
    }

    /** `ct_negate_cond_mp`. */
    method NegateCond(cond: bool)
      requires Valid()
      modifies this
      ensures Valid() && val == if cond then (0 - old(val)) % Cap(len) else old(val)
    {
      if cond { val := (0 - val) % Cap(len); }
    }

    /** `ct_add_cond_mp_mp`; `ct_add_mp_mp` with the condition true. */
    method AddCond(v: nat, cond: bool)
      requires Valid()
      modifies this
      ensures Valid() && val == if cond then (old(val) + v) % Cap(len) else old(val)
    {
      if cond { val := (val + v) % Cap(len); }
    }

    /** `ct_mod_mp_mp`. */
    method Mod(d: nat)
      requires Valid() && d > 0
      modifies this
      ensures Valid() && val == old(val) % d
    {
      ModAtMost(val, d);
      val := val % d;
    }

    /** `ct_mul_trunc_mp_mp`: the low `inLen` bytes times `v`, truncated. */
    method MulTrunc(inLen: nat, v: nat)
      requires Valid()
      modifies this
      ensures Valid() && val == old(val) % Cap(inLen) * v % Cap(len)
    {
      val := val % Cap(inLen) * v % Cap(len);
    }

    /** `ct_exp_mod_odd_mp_mp`: the low `nbits` bits of the exponent count. The
        base is left with garbage in it. */
    method ExpModOdd(base: Mp, m: nat, exponent: nat, nbits: nat, garbage: nat)
      requires Valid() && base.Valid() && base != this
      requires m % 2 == 1 && base.val < m <= Cap(len)
      modifies this, base
      ensures Valid() && base.Valid()
      ensures val == Pow(old(base.val), exponent % CapBits(nbits)) % m
    {
      val := Pow(base.val, exponent % CapBits(nbits)) % m;
      base.val := garbage % Cap(base.len);
    }
  }

  lemma CapEven(len: nat)
    requires len > 0
    ensures Cap(len) % 2 == 0
  {
    assert Cap(len) == 2 * (128 * Cap(len - 1));
  }

  /** A number of `len` bytes is one of `8 * len` bits. */
  lemma {:induction false} BytesAndBits(len: nat)
    ensures Cap(len) == CapBits(8 * len)
  {
    if len > 0 {
      BytesAndBits(len - 1);
      PowAdd(2, 8, 8 * (len - 1));
      assert Pow(2, 8) == 256;
    }
  }

  /** `ct_inv_mod_mp_mp`: the inverse, or nothing if the operands are not coprime. */
  method InverseModulo(a: nat, m: nat) returns (r: Option<nat>)
    requires m > 1
    ensures r.Some? <==> HasInverse(a, m)
    ensures r.Some? ==> IsInverse(r.value, a, m)
  {
    if Gcd(a, m) == 1 {
      r := Some(InvMod(a, m));
    } else {
      r := None;
      forall x | IsInverse(x, a, m) ensures false { InverseMeansCoprime(x, a, m); }
    }
  }
}
