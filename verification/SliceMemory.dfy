/** The memory behind writable slices: a destination slice is a sequence of
    addresses into it. */
module SliceMemory {
  import opened Arith
  import opened NumberTheory
  import opened Bytes

  ghost predicate Within(a: seq<nat>, n: nat) { forall i :: 0 <= i < |a| ==> a[i] < n }

  /** No address occurs twice: writable slices do not overlap. */
  ghost predicate Distinct(a: seq<nat>) { forall i, j {:trigger Differ(a, i, j)} :: Differ(a, i, j) }
  ghost predicate Differ(a: seq<nat>, i: int, j: int) { 0 <= i < j < |a| ==> a[i] != a[j] }

  lemma DistinctPart(a: seq<nat>, i: nat, j: nat)
    requires Distinct(a) && i <= j <= |a|
    ensures Distinct(a[i..j])
  {
    forall k, l ensures Differ(a[i..j], k, l) { assert Differ(a, i + k, i + l); }
  }

  /** The bytes in a slice; there are none outside of memory. */
  function Load(m: seq<byte>, a: seq<nat>): (x: seq<byte>)
    ensures |x| == |a| && forall i :: 0 <= i < |a| && a[i] < |m| ==> x[i] == m[a[i]]
  {
    seq(|a|, i requires 0 <= i < |a| => if a[i] < |m| then m[a[i]] else 0)
  }

  lemma LoadConcat(m: seq<byte>, a: seq<nat>, b: seq<nat>)
    ensures Load(m, a + b) == Load(m, a) + Load(m, b)
  {
  }

  // ---- writing ----

  /** The memory with the first `k` bytes of `x` written to the first `k` addresses
      of `a`, and to nothing else. */
  function Put(m: seq<byte>, a: seq<nat>, x: seq<byte>, k: nat): (r: seq<byte>)
    requires Within(a, |m|) && k <= |a| && k <= |x|
    ensures |r| == |m|
  {
    if k == 0 then m else Put(m, a, x, k - 1)[a[k - 1] := x[k - 1]]
  }

  /** Writing to one slice after the other is writing to both. */
  lemma {:induction false} PutPut(m: seq<byte>, a: seq<nat>, x: seq<byte>, k: nat, y: seq<byte>, n: nat)
    requires Within(a, |m|) && k <= |x| && n <= |y| && k + n <= |a|
    ensures Within(a[k..], |m|) && Put(Put(m, a, x, k), a[k..], y, n) == Put(m, a, x[..k] + y, k + n)
  {
    if n == 0 {
      PutPrefix(m, a, x, a, x[..k] + y, k);
    } else {
      PutPut(m, a, x, k, y, n - 1);
    }
  }

  lemma PutOn(m: seq<byte>, a: seq<nat>, x: seq<byte>, k: nat, n: nat)
    requires Within(a, |m|) && k + n <= |x| && k + n <= |a|
    ensures Within(a[k..], |m|) && Put(Put(m, a, x, k), a[k..], x[k..], n) == Put(m, a, x, k + n)
  {
    PutPut(m, a, x, k, x[k..], n);
    assert x[..k] + x[k..] == x;
  }

  /** The same for any slice that continues the first one. */
  lemma {:induction false} PutNext(m: seq<byte>, a: seq<nat>, x: seq<byte>, k: nat, b: seq<nat>, y: seq<byte>, n: nat)
    requires Within(a, |m|) && Within(b, |m|) && k + n <= |x| && k + n <= |a| && n <= |b| && n <= |y|
    requires forall i :: 0 <= i < n ==> b[i] == a[k + i] && y[i] == x[k + i]
    ensures Put(Put(m, a, x, k), b, y, n) == Put(m, a, x, k + n)
  {
    if n > 0 { PutNext(m, a, x, k, b, y, n - 1); }
  }

  /** Only the first `k` addresses and bytes matter. */
  lemma {:induction false} PutPrefix(m: seq<byte>, a: seq<nat>, x: seq<byte>, b: seq<nat>, y: seq<byte>, k: nat)
    requires Within(a, |m|) && Within(b, |m|) && k <= |x| && k <= |y| && k <= |a| && k <= |b|
    requires forall i :: 0 <= i < k ==> a[i] == b[i] && x[i] == y[i]
    ensures Put(m, a, x, k) == Put(m, b, y, k)
  {
    if k > 0 { PutPrefix(m, a, x, b, y, k - 1); }
  }

  /** Writing leaves every other address alone. */
  lemma {:induction false} PutElsewhere(m: seq<byte>, a: seq<nat>, x: seq<byte>, k: nat, p: nat)
    requires Within(a, |m|) && k <= |a| && k <= |x| && p < |m| && p !in a[..k]
    ensures Put(m, a, x, k)[p] == m[p]
  {
    if k > 0 {
      assert a[..k][k - 1] == a[k - 1];
      assert a[..k - 1] == a[..k][..k - 1];
      PutElsewhere(m, a, x, k - 1, p);
    }
  }

  /** What has not been reached yet still has its old value. */
  lemma LoadBeyond(m: seq<byte>, a: seq<nat>, x: seq<byte>, k: nat, j: nat)
    requires Within(a, |m|) && k <= |x| && Distinct(a) && k <= j < |a|
    ensures Put(m, a, x, k)[a[j]] == m[a[j]]
  {
    forall i | 0 <= i < k ensures a[i] != a[j] { assert Differ(a, i, j); }
    PutElsewhere(m, a, x, k, a[j]);
  }

  lemma {:induction false} PutAt(m: seq<byte>, a: seq<nat>, x: seq<byte>, k: nat, j: nat)
    requires Within(a, |m|) && Distinct(a) && j < k <= |a| && k <= |x|
    ensures Put(m, a, x, k)[a[j]] == x[j]
  {
    if j < k - 1 {
      assert Differ(a, j, k - 1);
      PutAt(m, a, x, k - 1, j);
    }
  }

  /** Writing back what was there restores the memory. */
  lemma PutBack(m: seq<byte>, a: seq<nat>, x: seq<byte>, y: seq<byte>, k: nat)
    requires Within(a, |m|) && Distinct(a) && k <= |a| && k <= |x| && k <= |y|
    requires forall i :: 0 <= i < k ==> y[i] == m[a[i]]
    ensures Put(Put(m, a, x, k), a, y, k) == m
  {
    var r := Put(Put(m, a, x, k), a, y, k);
    forall p | 0 <= p < |m| ensures r[p] == m[p] {
      if p in a[..k] {
        var i :| 0 <= i < k && a[..k][i] == p;
        PutAt(Put(m, a, x, k), a, y, k, i);
      } else {
        PutElsewhere(Put(m, a, x, k), a, y, k, p);
        PutElsewhere(m, a, x, k, p);
      }
    }
  }

  /** Write a byte string to a slice: the next `|y|` addresses of `a`. */
  method WriteSlice(mem: array<byte>, s: seq<nat>, y: seq<byte>, ghost m0: seq<byte>, ghost a: seq<nat>, ghost x: seq<byte>, ghost k: nat)
    requires Within(a, |m0|) && |s| == |y| && k + |s| <= |a| && k + |s| <= |x|
    requires mem[..] == Put(m0, a, x, k)
    requires forall i :: 0 <= i < |s| ==> s[i] == a[k + i] && y[i] == x[k + i]
    modifies mem
    ensures mem[..] == Put(m0, a, x, k + |s|)
  {
    for i := 0 to |s|
      invariant mem[..] == Put(m0, a, x, k + i)
    {
      mem[s[i]] := y[i];
    }
  }

  // ---- exclusive or ----

  /** Exclusive or of the lowest `n` bits. */
  function XorBits(a: nat, b: nat, n: nat): (r: nat)
    ensures r < Pow(2, n)
  {
    if n == 0 then 0 else 2 * XorBits(a / 2, b / 2, n - 1) + (if a % 2 == b % 2 then 0 else 1)
  }
  function XorByte(a: byte, b: byte): byte { assert Pow(2, 8) == 256; XorBits(a, b, 8) }

  /** Bit `i` of a number. */
  function Bit(a: nat, i: nat): (r: nat)
    ensures r < 2
  {
    if i == 0 then a % 2 else Bit(a / 2, i - 1)
  }
  lemma {:induction false} BitIs(a: nat, i: nat)
    ensures Pow(2, i) > 0 && Bit(a, i) == a / Pow(2, i) % 2
  {
    PowPositive(2, i);
    if i > 0 {
      PowPositive(2, i - 1);
      BitIs(a / 2, i - 1);
      DivTwice(a, Pow(2, i - 1));
    }
  }
  lemma DivTwice(a: nat, d: nat)
    requires d > 0
    ensures a / (2 * d) == a / 2 / d
  {
    var q, r := a / 2 / d, a / 2 % d;
    assert a == 2 * (q * d + r) + a % 2;
    assert a == q * (2 * d) + (2 * r + a % 2) by { MulAssoc(2, q, d); MulAssoc(q, 2, d); }
    DivModUnique(a, 2 * d, q, 2 * r + a % 2);
  }

  lemma XorStep(a: nat, b: nat, n: nat)
    requires n > 0
    ensures var w := XorBits(a, b, n); w / 2 == XorBits(a / 2, b / 2, n - 1) && w % 2 == if a % 2 == b % 2 then 0 else 1
  {
  }

  /** A bit is set exactly if it is set in one of both and not in the other. */
  lemma {:induction false} XorBitsAt(a: nat, b: nat, n: nat, i: nat)
    requires i < n
    ensures Bit(XorBits(a, b, n), i) == if Bit(a, i) == Bit(b, i) then 0 else 1
    decreases i
  {
    XorStep(a, b, n);
    if i > 0 { XorBitsAt(a / 2, b / 2, n - 1, i - 1); }
  }
  lemma XorIs(a: byte, b: byte, i: nat)
    requires i < 8
    ensures var p := Pow(2, i); p > 0 && XorByte(a, b) / p % 2 == if a / p % 2 != b / p % 2 then 1 else 0
  {
    XorBitsAt(a, b, 8, i);
    BitIs(a, i);
    BitIs(b, i);
    BitIs(XorByte(a, b), i);
  }

  /** The second time undoes the first. */
  lemma {:induction false} XorBitsTwice(a: nat, b: nat, n: nat)
    requires a < Pow(2, n)
    ensures XorBits(XorBits(a, b, n), b, n) == a
  {
    if n > 0 {
      var w := XorBits(a, b, n);
      XorStep(a, b, n);
      XorStep(w, b, n);
      XorBitsTwice(a / 2, b / 2, n - 1);
    }
  }
  lemma XorTwice(a: byte, b: byte)
    ensures XorByte(XorByte(a, b), b) == a
  {
    assert Pow(2, 8) == 256;
    XorBitsTwice(a, b, 8);
  }

  /** `xor_bytes` on the next `|y|` addresses. */
  method XorSlice(mem: array<byte>, s: seq<nat>, y: seq<byte>, ghost m0: seq<byte>, ghost a: seq<nat>, ghost x: seq<byte>, ghost k: nat)
    requires Within(a, |m0|) && Distinct(a) && |s| == |y| && k + |s| <= |a| && k + |s| <= |x|
    requires mem[..] == Put(m0, a, x, k)
    requires forall i :: 0 <= i < |s| ==> s[i] == a[k + i] && XorByte(m0[a[k + i]], y[i]) == x[k + i]
    modifies mem
    ensures mem[..] == Put(m0, a, x, k + |s|)
  {
    for i := 0 to |s|
      invariant mem[..] == Put(m0, a, x, k + i)
    {
      LoadBeyond(m0, a, x, k + i, k + i);
      assert mem[s[i]] == mem[..][s[i]];
      mem[s[i]] := XorByte(mem[s[i]], y[i]);
    }
  }
}
