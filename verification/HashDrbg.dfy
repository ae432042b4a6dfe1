/** The Hash_DRBG of NIST SP 800-90A Rev. 1, section 10.1.1
    (crypto/src/rng/hash_drbg.rs). */
module HashDrbg {
  import opened Arith
  import opened Cmpa
  import opened Results
  import opened Bytes
  import opened Hashing
  import opened IoSlices
  import opened SliceMemory
  import opened SliceAccess
  import opened IoSliceOps

  const MAX_REQUESTS: nat := 0x1_0000_0000_0000
  const MAX_REQUEST_LEN: nat := 0x1_0000

  // ---- adding to V ----

  // V and C are the numbers in their big-endian buffers of `sl` bytes.

  /** `ct_add_mp_mp`: modulo the width of the buffer. */
  function Add(v: nat, n: nat, m: nat): (r: nat)
    requires m > 0
    ensures r < m
  {
    (v + n) % m
  }
  /** `ct_sub_mp_mp`. */
  function Sub(v: nat, n: nat, m: nat): (r: nat)
    requires m > 0
    ensures r < m
  {
    (v - n) % m
  }

  lemma AddTwice(v: nat, i: nat, n: nat, m: nat)
    requires m > 0
    ensures Add(Add(v, i, m), n, m) == Add(v, i + n, m)
  {
    ModAddRight(n, v + i, m);
  }

  /** Subtracting what was added restores V, even if it wrapped. */
  lemma SubUndoesAdd(v: nat, n: nat, m: nat)
    requires v < m
    ensures Sub(Add(v, n, m), n, m) == v
  {
    ModAddRight(0 - n, v + n, m);
    ModSmall(v, m);
  }

  // ---- Hashgen ----

  /** Whole blocks, at least `n` bytes of them, from the `i`-th. */
  ghost function Blocks(block: nat -> seq<byte>, dl: nat, i: nat, n: nat): (x: seq<byte>)
    requires AreBlocks(block, dl)
    ensures n <= |x| && (n == 0 ==> x == [])
    decreases n
  {
    if n == 0 then []
    else
      assert |block(i)| == dl;
      block(i) + Blocks(block, dl, i + 1, n - Min(n, dl))
  }
  ghost predicate AreBlocks(block: nat -> seq<byte>, dl: nat) { dl > 0 && forall i {:trigger block(i)} :: |block(i)| == dl }

  /** The digests of V, V + 1 and so on. */
  ghost function Digests(h: Hash, v: nat, sl: nat): nat -> seq<byte> { (i: nat) => h(ToBE(Add(v, i, Cap(sl)), sl)) }

  lemma DigestsAreBlocks(h: Hash, dl: nat, v: nat, sl: nat)
    requires IsHash(h, dl)
    ensures AreBlocks(Digests(h, v, sl), dl)
  {
    forall i: nat ensures |Digests(h, v, sl)(i)| == dl { assert |h(ToBE(Add(v, i, Cap(sl)), sl))| == dl; }
  }

  /** Hashgen of section 10.1.1.4: the leftmost `n` bytes. */
  ghost function HashgenBytes(h: Hash, dl: nat, v: nat, sl: nat, n: nat): (x: seq<byte>)
    requires IsHash(h, dl)
    ensures |x| == n
  {
    DigestsAreBlocks(h, dl, v, sl);
    Blocks(Digests(h, v, sl), dl, 0, n)[..n]
  }

  /** Byte `o` of the block `q` blocks ahead. */
  lemma {:induction false} BlocksAt(block: nat -> seq<byte>, dl: nat, i: nat, n: nat, q: nat, o: nat, j: nat)
    requires AreBlocks(block, dl) && o < dl && j == q * dl + o && j < n
    ensures |block(i + q)| == dl && Blocks(block, dl, i, n)[j] == block(i + q)[o]
    decreases q
  {
    assert |block(i)| == dl;
    if q > 0 {
      MulAtLeast(dl, q);
      MulDistributes(dl, q - 1, 1);
      BlocksAt(block, dl, i + 1, n - dl, q - 1, o, j - dl);
      assert i + 1 + (q - 1) == i + q;
    }
  }

  /** Hashgen, byte by byte: the digests of V, V + 1 and so on as big-endian numbers of
      the length of V. */
  lemma HashgenIs(h: Hash, dl: nat, v: nat, sl: nat, n: nat, q: nat, o: nat, j: nat, w: seq<byte>)
    requires IsHash(h, dl) && o < dl && j == q * dl + o && j < n
    requires |w| == sl && BE(w) == (v + q) % Cap(sl)
    ensures |h(w)| == dl && HashgenBytes(h, dl, v, sl, n)[j] == h(w)[o]
  {
    OnlyBytes((v + q) % Cap(sl), w);
    DigestIs(h, v, sl, q, w);
    HashgenAt(h, dl, v, sl, n, q, o, j, h(w));
  }
  lemma DigestIs(h: Hash, v: nat, sl: nat, q: nat, w: seq<byte>)
    requires w == ToBE((v + q) % Cap(sl), sl)
    ensures Digests(h, v, sl)(q) == h(w)
  {
    assert Add(v, q, Cap(sl)) == (v + q) % Cap(sl);
    assert Digests(h, v, sl)(q) == h(ToBE(Add(v, q, Cap(sl)), sl));
  }
  lemma HashgenAt(h: Hash, dl: nat, v: nat, sl: nat, n: nat, q: nat, o: nat, j: nat, d: seq<byte>)
    requires IsHash(h, dl) && o < dl && j == q * dl + o && j < n && Digests(h, v, sl)(q) == d
    ensures |d| == dl && HashgenBytes(h, dl, v, sl, n)[j] == d[o]
  {
    DigestsAreBlocks(h, dl, v, sl);
    BlocksAt(Digests(h, v, sl), dl, 0, n, q, o, j);
  }

  /** From block `i` on, the blocks for `n - j` more bytes are what follows `j` bytes. */
  ghost predicate Coming(block: nat -> seq<byte>, dl: nat, i: nat, n: nat, x: seq<byte>, j: nat)
    requires AreBlocks(block, dl)
  {
    j <= n <= |x| && forall k: nat {:trigger Blocks(block, dl, k, n - j)} :: k == i ==> Blocks(block, dl, k, n - j) == x[j..]
  }

  lemma NextBlock(block: nat -> seq<byte>, dl: nat, i: nat, n: nat, x: seq<byte>, j: nat)
    requires AreBlocks(block, dl) && Coming(block, dl, i, n, x, j) && j < n
    ensures var b := block(i);
            && |b| == dl && j + dl <= |x| && (forall k :: 0 <= k < dl ==> b[k] == x[j + k])
            && (j + dl < n ==> Coming(block, dl, i + 1, n, x, j + dl))
  {
    var b := block(i);
    assert |b| == dl;
    var rest := Blocks(block, dl, i + 1, n - j - Min(n - j, dl));
    assert Blocks(block, dl, i, n - j) == b + rest;
    forall k | 0 <= k < dl ensures b[k] == x[j + k] { assert x[j..][k] == b[k]; }
    if j + dl < n {
      assert x[j..][dl..] == x[j + dl..];
    }
  }

  /** The largest request served in one go: whole digests. */
  function MaxLen(dl: nat): (n: nat)
    requires dl > 0
    ensures n <= 0x1_0000 < n + dl && n % dl == 0
  {
    RoundDown(MAX_REQUEST_LEN, dl);
    MAX_REQUEST_LEN - MAX_REQUEST_LEN % dl
  }

  /** What the loop of `hashgen` knows: `j` bytes are out, V has been incremented `i`
      times. */
  ghost predicate Generated<I>(block: nat -> seq<byte>, dl: nat, dacc: Access<I, nat>, D: seq<nat>, d: I, m0: seq<byte>,
                               x: seq<byte>, n: nat, i: nat, j: nat, m: seq<byte>)
    requires AreBlocks(block, dl)
  {
    && Within(D, |m0|) && j <= n <= |D| && n <= |x| && Past(dacc, D, j, d) && m == Put(m0, D, x, j)
    && (j < n ==> Coming(block, dl, i, n, x, j)) && (n == |D| || (n - j) % dl == 0)
  }

  /** How the last digest before `d` was delivered: whole in one slice, or over several
      with a take of no length at the end. */
  ghost predicate Delivered<I(!new)>(dacc: Access<I, nat>, from: I, d: I, dl: nat) {
    dacc.view(d) != [] ==> exists e {:trigger dacc.next(e, Some(dl))} :: DeliveredFrom(dacc, from, e, d, dl)
  }
  ghost predicate DeliveredFrom<I(!new)>(dacc: Access<I, nat>, from: I, e: I, d: I, dl: nat) {
    && Reachable(dacc, from, e) && |dacc.view(e)| == |dacc.view(d)| + dl
    && if |Slot(dacc.next(e, Some(dl)).0)| == dl then d == dacc.next(e, Some(dl)).1 else Settled(dacc, d)
  }

  /** One block: straight into a slice of its size, or by way of the scratch buffer
      over several. */
  method HashgenBlock<I(!new)>(digest: seq<byte>, dl: nat, mem: array<byte>, dacc: Access<I, nat>, dst: I,
    ghost block: nat -> seq<byte>, ghost D: seq<nat>, ghost m0: seq<byte>, ghost x: seq<byte>, ghost n: nat, ghost i: nat, ghost j: nat,
    ghost from: I)
    returns (d: I, len: nat)
    requires AreBlocks(block, dl) && IsAccess(dacc) && Generated(block, dl, dacc, D, dst, m0, x, n, i, j, mem[..]) && j < n
    requires digest == block(i) && Reachable(dacc, from, dst)
    modifies mem
    ensures len == Min(dl, n - j) && Generated(block, dl, dacc, D, d, m0, x, n, i + 1, j + len, mem[..])
    ensures Reachable(dacc, from, d) && Delivered(dacc, from, d, dl)
  {
    NextBlock(block, dl, i, n, x, j);
    BlockLength(n - j, dl, n == |D|);
    var (s, d1) := dacc.next(dst, Some(dl));
    assert Promises(dacc, dst, Some(dl));
    d := d1;
    Advance(dacc, D, j, dst, s.value, d1);
    ReachTake(dacc, from, dst, Some(dl));
    if |s.value| == dl {
      WriteSlice(mem, s.value, digest, m0, D, x, j);
      len := dl;
    } else {
      len, d := ScatterBlock(mem, s.value, dacc, d1, digest, m0, D, x, j);
      ReachOn(dacc, from, d1, d);
    }
    assert dacc.view(d) != [] ==> DeliveredFrom(dacc, from, dst, d, dl);
  }

  lemma BlockLength(left: nat, dl: nat, all: bool)
    requires dl > 0 && left > 0 && (all || left % dl == 0)
    ensures left < dl ==> all
    ensures all || (left - Min(dl, left)) % dl == 0
  {
    if left < dl { ModSmall(left, dl); } else { ModShift(left - dl, 1, dl); }
  }

  /** `hashgen`: fills the destination up to the largest request length with the flat
      Hashgen, and leaves V as it was. */
  method Hashgen<I(!new)>(h: Hash, dl: nat, mem: array<byte>, dacc: Access<I, nat>, dst: I, v: nat, sl: nat)
    returns (d: I, v': nat)
    requires IsHash(h, dl) && IsAccess(dacc) && Within(dacc.view(dst), mem.Length) && v < Cap(sl)
    modifies mem
    ensures v' == v
    ensures var n := Min(MaxLen(dl), |dacc.view(dst)|);
            && Past(dacc, dacc.view(dst), n, d) && mem[..] == Put(old(mem[..]), dacc.view(dst), HashgenBytes(h, dl, v, sl, n), n)
            && Reachable(dacc, dst, d) && (n > 0 ==> Delivered(dacc, dst, d, dl))
  {
    ghost var D, m0, block := dacc.view(dst), mem[..], Digests(h, v, sl);
    DigestsAreBlocks(h, dl, v, sl);
    var left: nat := Min(MaxLen(dl), |dacc.view(dst)|);
    ghost var n := left;
    ghost var x := Blocks(block, dl, 0, n);
    PastStart(dacc, dst);
    d, v' := dst, v;
    if left == 0 { return; }
    assert x[0..] == x;
    d, v' := HashgenLoop(h, dl, mem, dacc, dst, v, sl, left, D, m0, x);
    PutPrefix(m0, D, x, D, x[..n], n);
  }

  method HashgenLoop<I(!new)>(h: Hash, dl: nat, mem: array<byte>, dacc: Access<I, nat>, dst: I, v: nat, sl: nat, len: nat,
                              ghost D: seq<nat>, ghost m0: seq<byte>, ghost x: seq<byte>)
    returns (d: I, v': nat)
    requires IsHash(h, dl) && IsAccess(dacc) && v < Cap(sl) && AreBlocks(Digests(h, v, sl), dl) && len > 0
    requires Generated(Digests(h, v, sl), dl, dacc, D, dst, m0, x, len, 0, 0, mem[..])
    modifies mem
    ensures v' == v && Past(dacc, D, len, d) && mem[..] == Put(m0, D, x, len)
    ensures Reachable(dacc, dst, d) && Delivered(dacc, dst, d, dl)
  {
    ghost var block := Digests(h, v, sl);
    ModSmall(v, Cap(sl));
    var left := len;
    var delta := 0;
    d, v' := dst, v;
    while true
      invariant 0 < left <= len && v' == Add(v, delta, Cap(sl))
      invariant Generated(block, dl, dacc, D, d, m0, x, len, delta, len - left, mem[..])
      invariant Reachable(dacc, dst, d)
      decreases left
    {
      var k;
      assert h(ToBE(v', sl)) == block(delta);
      d, k := HashgenBlock(h(ToBE(v', sl)), dl, mem, dacc, d, block, D, m0, x, len, delta, len - left, dst);
      left := left - k;
      if left == 0 { break; }
      AddTwice(v, delta, 1, Cap(sl));
      v', delta := Add(v', 1, Cap(sl)), delta + 1;
    }
    if delta != 0 {
      SubUndoesAdd(v, delta, Cap(sl));
      v' := Sub(v', delta, Cap(sl));
    }
  }

  // ---- Hash_df ----

  /** The blocks of Hash_df of section 10.3.1: the digests of counter, length in bits
      and input. */
  function DfBlock(h: Hash, input: seq<byte>, n: nat, i: nat): seq<byte> { h([(i + 1) % 256] + Be32(8 * n) + input) }

  ghost function DfBlocks(h: Hash, input: seq<byte>, n: nat): nat -> seq<byte> { (i: nat) => DfBlock(h, input, n, i) }

  lemma DfAreBlocks(h: Hash, dl: nat, input: seq<byte>, n: nat)
    requires IsHash(h, dl)
    ensures AreBlocks(DfBlocks(h, input, n), dl)
  {
    forall i: nat ensures |DfBlocks(h, input, n)(i)| == dl { assert |DfBlock(h, input, n, i)| == dl; }
  }

  /** The leftmost `n` bytes. */
  ghost function HashDfBytes(h: Hash, dl: nat, input: seq<byte>, n: nat): (x: seq<byte>)
    requires IsHash(h, dl)
    ensures |x| == n
  {
    DfAreBlocks(h, dl, input, n);
    Blocks(DfBlocks(h, input, n), dl, 0, n)[..n]
  }

  /** Byte by byte: each block is the digest of its number, counted from one, in one byte,
      the length in bits in four, and the input. */
  lemma HashDfIs(h: Hash, dl: nat, input: seq<byte>, n: nat, q: nat, o: nat, j: nat, w: seq<byte>)
    requires IsHash(h, dl) && o < dl && j == q * dl + o && j < n <= 255
    requires |w| == 5 + |input| && w[0] == q + 1 && BE(w[1..5]) == 8 * n && w[5..] == input
    ensures |h(w)| == dl && HashDfBytes(h, dl, input, n)[j] == h(w)[o]
  {
    CounterBelow(q, o, dl);
    OnlyBytes(8 * n, w[1..5]);
    PrefixOn(w, 1, 5);
    PrefixOn(w, 5, |w|);
    assert w[..1] == [q + 1] && w[..|w|] == w && w[5..|w|] == input;
    HashDfAt(h, dl, input, n, q, o, j, h(w));
  }
  lemma CounterBelow(q: nat, o: nat, dl: nat)
    requires o < dl
    ensures q <= q * dl + o
  {
    if q > 0 { MulAtLeast(q, dl); }
  }
  lemma HashDfAt(h: Hash, dl: nat, input: seq<byte>, n: nat, q: nat, o: nat, j: nat, d: seq<byte>)
    requires IsHash(h, dl) && o < dl && j == q * dl + o && j < n && DfBlocks(h, input, n)(q) == d
    ensures |d| == dl && HashDfBytes(h, dl, input, n)[j] == d[o]
  {
    DfAreBlocks(h, dl, input, n);
    BlocksAt(DfBlocks(h, input, n), dl, 0, n, q, o, j);
  }

  method FillFrom(output: array<byte>, pos: nat, y: seq<byte>, ghost x: seq<byte>)
    requires pos + |y| <= output.Length <= |x|
    requires (forall k :: 0 <= k < pos ==> output[k] == x[k]) && (forall k :: 0 <= k < |y| ==> y[k] == x[pos + k])
    modifies output
    ensures forall k :: 0 <= k < pos + |y| ==> output[k] == x[k]
  {
    for i := 0 to |y|
      invariant forall k :: 0 <= k < pos + i ==> output[k] == x[k]
    {
      output[pos + i] := y[i];
    }
  }

  /** `hash_df`; its counter of eight bits never overflows for the seed lengths. */
  method HashDf(h: Hash, dl: nat, input: seq<byte>, output: array<byte>)
    requires IsHash(h, dl) && output.Length <= 255
    modifies output
    ensures output[..] == HashDfBytes(h, dl, input, output.Length)
  {
    ghost var n, block := output.Length, DfBlocks(h, input, output.Length);
    DfAreBlocks(h, dl, input, n);
    ghost var x := Blocks(block, dl, 0, n);
    assert x[0..] == x;
    var remaining := output.Length;
    var counter := 0;
    while remaining > 0
      invariant 0 <= remaining <= n && counter <= n - remaining
      invariant remaining > 0 ==> Coming(block, dl, counter, n, x, n - remaining)
      invariant forall k :: 0 <= k < n - remaining ==> output[k] == x[k]
    {
      remaining := DfRound(h, dl, input, output, counter, remaining, x);
      counter := counter + 1;
    }
    assert output[..] == x[..n];
  }

  /** One digest of it. */
  method DfRound(h: Hash, dl: nat, input: seq<byte>, output: array<byte>, counter: nat, remaining: nat, ghost x: seq<byte>)
    returns (left: nat)
    requires IsHash(h, dl) && AreBlocks(DfBlocks(h, input, output.Length), dl)
    requires 0 < remaining <= output.Length <= 255 && counter <= output.Length - remaining
    requires Coming(DfBlocks(h, input, output.Length), dl, counter, output.Length, x, output.Length - remaining)
    requires forall k :: 0 <= k < output.Length - remaining ==> output[k] == x[k]
    modifies output
    ensures left == remaining - Min(dl, remaining) && counter + 1 <= output.Length - left
    ensures left > 0 ==> Coming(DfBlocks(h, input, output.Length), dl, counter + 1, output.Length, x, output.Length - left)
    ensures forall k :: 0 <= k < output.Length - left ==> output[k] == x[k]
  {
    ghost var block := DfBlocks(h, input, output.Length);
    NextBlock(block, dl, counter, output.Length, x, output.Length - remaining);
    var digest := h([counter + 1] + Be32(8 * output.Length) + input);
    assert digest == block(counter);
    var len := Min(dl, remaining);
    FillFrom(output, output.Length - remaining, digest[..len], x);
    left := remaining - len;
  }
}
