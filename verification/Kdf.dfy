/** Serving requests of any size and slicing from a key derivation function that
    generates fixed-size blocks (crypto/src/kdf/mod.rs). */
module Kdf {
  import opened Arith
  import opened Results
  import opened Bytes
  import opened IoSlices
  import opened SliceMemory
  import opened SliceAccess
  import opened IoSliceOps

  /** `FixedBlockOutputKdf` with states `K`: a generated block, how much of it is
      valid, and the next state. */
  datatype BlockKdf<!K> = BlockKdf(blockLen: nat, remaining: K -> nat, generate: K -> Result<(seq<byte>, nat, K)>)

  ghost predicate BlockOk<K>(kdf: BlockKdf<K>, k: K) {
    kdf.remaining(k) > 0 ==>
      && kdf.generate(k).Ok?
      && var (b, n, k') := kdf.generate(k).value;
      && |b| == kdf.blockLen && n == Min(kdf.blockLen, kdf.remaining(k))
      && kdf.remaining(k') == kdf.remaining(k) - n
  }
  ghost predicate IsBlockKdf<K(!new)>(kdf: BlockKdf<K>) {
    kdf.blockLen > 0 && forall k {:trigger kdf.generate(k)} :: BlockOk(kdf, k)
  }

  /** All the key bytes still to come: the blocks one after the other, cut at the
      total length. */
  ghost function Stream<K(!new)>(kdf: BlockKdf<K>, k: K): (x: seq<byte>)
    requires IsBlockKdf(kdf)
    ensures |x| == kdf.remaining(k)
    decreases kdf.remaining(k)
  {
    if kdf.remaining(k) == 0 then []
    else
      assert BlockOk(kdf, k);
      var (b, n, k') := kdf.generate(k).value;
      b[..n] + Stream(kdf, k')
  }

  /** From state `k` on, the stream is `left` after its first `j` bytes. */
  ghost predicate Coming<K(!new)>(kdf: BlockKdf<K>, k: K, left: seq<byte>, j: nat)
    requires IsBlockKdf(kdf)
  {
    j <= |left| && forall s {:trigger Stream(kdf, s)} :: s == k ==> Stream(kdf, s) == left[j..]
  }

  /** The same with the last `rem` bytes of the buffer coming first. */
  ghost predicate Next<K(!new)>(kdf: BlockKdf<K>, k: K, buf: seq<byte>, rem: nat, left: seq<byte>, j: nat)
    requires IsBlockKdf(kdf)
  {
    && rem <= |buf| && j + rem <= |left| && Coming(kdf, k, left, j + rem)
    && forall i {:trigger BufferedAt(buf, rem, left, j, i)} :: BufferedAt(buf, rem, left, j, i)
  }
  ghost predicate BufferedAt(buf: seq<byte>, rem: nat, left: seq<byte>, j: nat, i: int)
    requires rem <= |buf| && j + rem <= |left|
  {
    0 <= i < rem ==> buf[|buf| - rem + i] == left[j + i]
  }

  lemma NextIs<K(!new)>(kdf: BlockKdf<K>, k: K, buf: seq<byte>, rem: nat, left: seq<byte>, j: nat)
    requires IsBlockKdf(kdf) && rem <= |buf| && j + rem <= |left|
    ensures Next(kdf, k, buf, rem, left, j) <==> buf[|buf| - rem..] == left[j..j + rem] && Coming(kdf, k, left, j + rem)
  {
    var a, b := buf[|buf| - rem..], left[j..j + rem];
    if Next(kdf, k, buf, rem, left, j) {
      forall i | 0 <= i < |a| ensures a[i] == b[i] { assert BufferedAt(buf, rem, left, j, i); }
    } else if a == b {
      forall i ensures BufferedAt(buf, rem, left, j, i) {
        if 0 <= i < rem { assert a[i] == b[i]; }
      }
    }
  }

  lemma NextBytes<K(!new)>(kdf: BlockKdf<K>, k: K, buf: seq<byte>, rem: nat, left: seq<byte>, j: nat)
    requires IsBlockKdf(kdf) && Next(kdf, k, buf, rem, left, j)
    ensures var x := buf[|buf| - rem..]; |x| == rem && forall i :: 0 <= i < |x| ==> x[i] == left[j + i]
  {
    var x := buf[|buf| - rem..];
    forall i | 0 <= i < |x| ensures x[i] == left[j + i] { assert BufferedAt(buf, rem, left, j, i); }
  }

  lemma NextCount<K(!new)>(kdf: BlockKdf<K>, k: K, buf: seq<byte>, rem: nat, left: seq<byte>, j: nat)
    requires IsBlockKdf(kdf) && Next(kdf, k, buf, rem, left, j)
    ensures |left| == j + rem + kdf.remaining(k)
  {
    ComingCount(kdf, k, left, j + rem);
  }

  lemma ComingCount<K(!new)>(kdf: BlockKdf<K>, k: K, left: seq<byte>, j: nat)
    requires IsBlockKdf(kdf) && Coming(kdf, k, left, j)
    ensures |left| == j + kdf.remaining(k)
  {
    assert |Stream(kdf, k)| == kdf.remaining(k);
  }

  lemma NextAdvance<K(!new)>(kdf: BlockKdf<K>, k: K, buf: seq<byte>, rem: nat, left: seq<byte>, j: nat, n: nat)
    requires IsBlockKdf(kdf) && Next(kdf, k, buf, rem, left, j) && n <= rem
    ensures Next(kdf, k, buf, rem - n, left, j + n)
  {
    NextIs(kdf, k, buf, rem, left, j);
    NextIs(kdf, k, buf, rem - n, left, j + n);
    assert buf[|buf| - (rem - n)..] == buf[|buf| - rem..][n..] == left[j + n..j + rem];
  }

  /** The next block of the stream. */
  lemma StreamStep<K(!new)>(kdf: BlockKdf<K>, k: K, left: seq<byte>, j: nat)
    requires IsBlockKdf(kdf) && Coming(kdf, k, left, j) && j < |left|
    ensures kdf.generate(k).Ok?
    ensures var (b, n, k') := kdf.generate(k).value;
            && |b| == kdf.blockLen && n == Min(kdf.blockLen, |left| - j)
            && b[..n] == left[j..j + n] && Coming(kdf, k', left, j + n)
  {
    assert |Stream(kdf, k)| == kdf.remaining(k);
    assert BlockOk(kdf, k);
    var (b, n, k') := kdf.generate(k).value;
    assert left[j..] == b[..n] + Stream(kdf, k');
    assert b[..n] == left[j..][..n] == left[j..j + n];
    assert left[j..][n..] == left[j + n..];
  }

  /** The length of the last block, of `r` bytes in blocks: nothing if all are whole. */
  function Tail(r: nat, bl: nat): (p: nat)
    requires bl > 0
    ensures p <= r && p < bl
  {
    if r < bl then r else Tail(r - bl, bl)
  }

  lemma {:induction false} TailIs(r: nat, bl: nat)
    requires bl > 0
    ensures Tail(r, bl) == r % bl
  {
    if r < bl {
      ModSmall(r, bl);
    } else {
      TailIs(r - bl, bl);
      ModShift(r - bl, 1, bl);
    }
  }

  /** The last `p` of `n` bytes are a partial block, which is still to come after `j`
      bytes exactly if none of it is among them. */
  ghost predicate Tailed<K>(kdf: BlockKdf<K>, k: K, n: nat, j: nat, p: nat)
    requires kdf.blockLen > 0
  {
    Tail(kdf.remaining(k), kdf.blockLen) == if j + p <= n then p else 0
  }

  /** `i` more bytes, of one block. */
  ghost predicate TailedOn<K>(kdf: BlockKdf<K>, k: K, n: nat, j: nat, p: nat, i: nat)
    requires kdf.blockLen > 0
  {
    Tailed(kdf, k, n, j + i, p) && j + p <= n && (j + p < n ==> j + i + p <= n)
  }

  /** The next block is a partial one exactly if it is the last one. */
  lemma TailStep<K(!new)>(kdf: BlockKdf<K>, k: K, k': K, n: nat, j: nat, p: nat, c: nat, i: nat)
    requires IsBlockKdf(kdf) && Tailed(kdf, k, n, j, p) && p < kdf.blockLen
    requires kdf.remaining(k) == n - j > 0 && c == Min(kdf.blockLen, n - j) && kdf.remaining(k') == n - j - c && 0 < i <= c
    ensures TailedOn(kdf, k', n, j, p, i) && (c < kdf.blockLen <==> j + p == n && p > 0)
  {
  }

  // ---- the steps of serving a request ----

  /** What the loop of a request knows: `j` bytes of the destination `D` hold the
      first `j` of the bytes `left`. */
  ghost predicate Served<I>(dacc: Access<I, nat>, D: seq<nat>, d: I, m0: seq<byte>, left: seq<byte>, j: nat, m: seq<byte>) {
    Within(D, |m0|) && |D| <= |left| && Past(dacc, D, j, d) && m == Put(m0, D, left, j)
  }

  /** A property of iterators under which every slice handed out for a whole block
      has its length. */
  ghost predicate Aligning<I(!new)>(dacc: Access<I, nat>, aligned: I -> bool, bl: nat) {
    forall it, max {:trigger dacc.next(it, max)} :: aligned(it) && (max == Some(0) || max == Some(bl)) ==>
      var (s, rest) := dacc.next(it, max);
      aligned(rest) && (max == Some(bl) && s.Some? ==> |s.value| == bl)
  }

  /** The buffered bytes first. */
  method ServeBuffered<K(!new), I(!new)>(kdf: BlockKdf<K>, k: K, mem: array<byte>, dacc: Access<I, nat>, dst: I,
                                        buf: seq<byte>, rem: nat, ghost left: seq<byte>)
    returns (d: I, rem': nat, n: nat)
    requires IsBlockKdf(kdf) && IsAccess(dacc) && Within(dacc.view(dst), mem.Length)
    requires Next(kdf, k, buf, rem, left, 0) && |dacc.view(dst)| <= |left|
    modifies mem
    ensures n == Min(rem, |dacc.view(dst)|) && rem' == rem - n && Served(dacc, dacc.view(dst), d, old(mem[..]), left, n, mem[..])
    ensures Next(kdf, k, buf, rem', left, n)
    ensures rem == 0 ==> d == dacc.next(dst, Some(0)).1
    ensures Reachable(dacc, dst, d) && (rem' == 0 || dacc.isEmpty(d))
  {
    PastStart(dacc, dst);
    NextBytes(kdf, k, buf, rem, left, 0);
    n, d := CopyOn(mem, dacc, dst, buf[|buf| - rem..], mem[..], dacc.view(dst), left, 0);
    rem' := rem - n;
    NextAdvance(kdf, k, buf, rem, left, 0, n);
  }

  /** Generate a block into the buffer and move what is valid to its end. */
  method FillBuffer<K(!new)>(kdf: BlockKdf<K>, k: K, buf: seq<byte>, ghost left: seq<byte>, ghost j: nat)
    returns (k': K, buf': seq<byte>, c: nat)
    requires IsBlockKdf(kdf) && |buf| == kdf.blockLen && Coming(kdf, k, left, j) && j < |left|
    ensures |buf'| == kdf.blockLen && c == Min(kdf.blockLen, |left| - j) && Next(kdf, k', buf', c, left, j)
  {
    StreamStep(kdf, k, left, j);
    var (b, n, next) := kdf.generate(k).value;
    k', buf', c := next, b, n;
    if c != |buf| {
      buf' := b[..|b| - c] + b[..c];
    }
    assert buf'[|buf'| - c..] == b[..c];
    NextIs(kdf, k', buf', c, left, j);
  }

  /** The next slice of the destination has been taken. */
  ghost predicate AtSlice<I>(dacc: Access<I, nat>, D: seq<nat>, a: seq<nat>, dst: I, m0: seq<byte>, left: seq<byte>, j: nat, m: seq<byte>) {
    && Within(D, |m0|) && |D| <= |left| && j + |a| <= |D| && m == Put(m0, D, left, j)
    && Past(dacc, D, j + |a|, dst) && forall i :: 0 <= i < |a| ==> a[i] == D[j + i]
  }

  /** A block that does not fit the slice at hand, by way of the buffer. The code asserts
      that the block is whole, or covers the slice and nothing is left behind it. */
  method GenerateBuffered<K(!new), I(!new)>(kdf: BlockKdf<K>, k: K, mem: array<byte>, a: seq<nat>, dacc: Access<I, nat>, dst: I,
                                            buf: seq<byte>, ghost D: seq<nat>, ghost m0: seq<byte>, ghost left: seq<byte>, ghost j: nat, ghost p: nat)
    returns (held: bool, k': K, d: I, buf': seq<byte>, rem: nat, ghost n: nat)
    requires IsBlockKdf(kdf) && IsAccess(dacc) && Coming(kdf, k, left, j) && AtSlice(dacc, D, a, dst, m0, left, j, mem[..])
    requires 0 < |a| < kdf.blockLen == |buf| && p < kdf.blockLen && Tailed(kdf, k, |left|, j, p)
    modifies mem
    ensures n > 0 && Served(dacc, D, d, m0, left, j + n, mem[..]) && Reachable(dacc, dst, d)
    ensures |buf'| == |buf| && (rem > 0 ==> j + n == |D|) && Next(kdf, k', buf', rem, left, j + n)
    ensures TailedOn(kdf, k', |left|, j, p, n)
    ensures held <==> (p > 0 && j + p == |left| ==> dacc.isEmpty(dst))
  {
    var c;
    k', buf', c := FillBuffer(kdf, k, buf, left, j);
    held := c == kdf.blockLen || (c >= |a| && dacc.isEmpty(dst));
    NextBytes(kdf, k', buf', c, left, j);
    var copied;
    copied, d := ScatterBlock(mem, a, dacc, dst, buf'[|buf'| - c..], m0, D, left, j);
    rem, n := c - copied, copied;
    NextAdvance(kdf, k', buf', c, left, j, n);
    ComingCount(kdf, k, left, j);
    NextCount(kdf, k', buf', rem, left, j + n);
    TailStep(kdf, k, k', |left|, j, p, c, n);
  }

  /** A whole block straight into a slice. */
  method GenerateWhole<K(!new), I(!new)>(kdf: BlockKdf<K>, k: K, mem: array<byte>, a: seq<nat>, dacc: Access<I, nat>, dst: I,
                                         ghost D: seq<nat>, ghost m0: seq<byte>, ghost left: seq<byte>, ghost j: nat, ghost p: nat)
    returns (k': K)
    requires IsBlockKdf(kdf) && IsAccess(dacc) && Coming(kdf, k, left, j) && AtSlice(dacc, D, a, dst, m0, left, j, mem[..])
    requires |a| == kdf.blockLen && p < kdf.blockLen && Tailed(kdf, k, |left|, j, p)
    modifies mem
    ensures Served(dacc, D, dst, m0, left, j + |a|, mem[..]) && Coming(kdf, k', left, j + |a|)
    ensures TailedOn(kdf, k', |left|, j, p, |a|) && j + p < |left|
  {
    StreamStep(kdf, k, left, j);
    var (b, c, next) := kdf.generate(k).value;
    forall i | 0 <= i < |a| ensures b[i] == left[j + i] { assert b[..c][i] == left[j..j + c][i]; }
    WriteSlice(mem, a, b, m0, D, left, j);
    assert c == kdf.blockLen;
    k' := next;
    ComingCount(kdf, k, left, j);
    ComingCount(kdf, k', left, j + |a|);
    TailStep(kdf, k, k', |left|, j, p, c, c);
  }

  /** The block buffer has the size of a block, or is empty and never needed. */
  ghost predicate BufferOk<I>(buf: nat, bl: nat, aligned: I -> bool, it: I) { buf == bl || (buf == 0 && aligned(it)) }

  // ---- generating ----

  /** With less than a block to go, the first take beyond `t` elements of the destination
      leaves it passing for empty exactly if `one` says so. */
  ghost predicate EndsAfter<I(!new)>(dacc: Access<I, nat>, dst: I, t: int, bl: nat, one: bool) {
    forall d {:trigger dacc.next(d, Some(bl))} ::
      Reachable(dacc, dst, d) && 0 < |dacc.view(d)| < bl && t + |dacc.view(d)| == |dacc.view(dst)| ==>
        (dacc.isEmpty(dacc.next(d, Some(bl)).1) <==> one)
  }

  /** The assertion held up to the `j`-th byte exactly if the partial block of `p` bytes
      from the `t`-th on was not reached, or went to one piece of the destination, all
      that is left. */
  ghost predicate HeldUpTo<I(!new)>(dacc: Access<I, nat>, dst: I, bl: nat, t: int, p: nat, j: nat, held: bool) {
    if p == 0 || j <= t then held
    else forall one {:trigger EndsAfter(dacc, dst, t, bl, one)} :: EndsAfter(dacc, dst, t, bl, one) ==> held == one
  }

  lemma HeldOn<I(!new)>(dacc: Access<I, nat>, dst: I, bl: nat, t: int, p: nat, j: nat, held: bool, d: I, n: nat, h: bool)
    requires HeldUpTo(dacc, dst, bl, t, p, j, held) && Reachable(dacc, dst, d) && j + |dacc.view(d)| == |dacc.view(dst)|
    requires 0 < n && dacc.view(d) != [] && |dacc.view(dst)| <= t + p && p < bl && (p == 0 || j <= t) && (p > 0 && j < t ==> j + n <= t)
    requires h <==> (p > 0 && j == t ==> dacc.isEmpty(dacc.next(d, Some(bl)).1))
    ensures HeldUpTo(dacc, dst, bl, t, p, j + n, held && h)
  {
  }

  method TakeSlice<I(!new)>(dacc: Access<I, nat>, dst: I, bl: nat,
                            ghost D: seq<nat>, ghost m0: seq<byte>, ghost left: seq<byte>, ghost j: nat, ghost m: seq<byte>)
    returns (s: Option<seq<nat>>, d: I)
    requires IsAccess(dacc) && bl > 0 && Served(dacc, D, dst, m0, left, j, m)
    ensures (s, d) == dacc.next(dst, Some(bl)) && Reachable(dacc, dst, d)
    ensures if s.None? then j == |D| && Served(dacc, D, d, m0, left, j, m)
            else j < |D| && 0 < |s.value| <= bl && AtSlice(dacc, D, s.value, d, m0, left, j, m)
  {
    var (slice, rest) := dacc.next(dst, Some(bl));
    s, d := slice, rest;
    assert Promises(dacc, dst, Some(bl));
    Advance(dacc, D, j, dst, Slot(s), d);
    ReachTake(dacc, dst, dst, Some(bl));
  }

  /** One round of the loop below. */
  method ServeNext<K(!new), I(!new)>(
    kdf: BlockKdf<K>, k: K, mem: array<byte>, dacc: Access<I, nat>, dst: I, buf: seq<byte>, rem: nat,
    ghost D: seq<nat>, ghost m0: seq<byte>, ghost left: seq<byte>, ghost j: nat, ghost aligned: I -> bool, ghost p: nat)
    returns (more: bool, held: bool, k': K, d: I, buf': seq<byte>, rem': nat, ghost n: nat)
    requires IsBlockKdf(kdf) && IsAccess(dacc)
    requires Served(dacc, D, dst, m0, left, j, mem[..]) && Next(kdf, k, buf, rem, left, j) && (rem > 0 ==> j == |D|)
    requires Aligning(dacc, aligned, kdf.blockLen) && BufferOk(|buf|, kdf.blockLen, aligned, dst)
    requires p < kdf.blockLen && Tailed(kdf, k, |left|, j, p)
    modifies mem
    ensures more == (j < |D|) && (more <==> n > 0)
    ensures Served(dacc, D, d, m0, left, j + n, mem[..]) && Next(kdf, k', buf', rem', left, j + n)
    ensures |buf'| == |buf| && BufferOk(|buf'|, kdf.blockLen, aligned, d) && (rem' > 0 ==> j + n == |D|)
    ensures Reachable(dacc, dst, d) && (if more then TailedOn(kdf, k', |left|, j, p, n) else k' == k)
    ensures held <==> (more && p > 0 && j + p == |left| ==> dacc.isEmpty(dacc.next(dst, Some(kdf.blockLen)).1))
  {
    var s, d1 := TakeSlice(dacc, dst, kdf.blockLen, D, m0, left, j, mem[..]);
    more, held, k', d, buf', rem', n := false, true, k, d1, buf, rem, 0;
    if s.None? { return; }
    if |s.value| == kdf.blockLen {
      k' := GenerateWhole(kdf, k, mem, s.value, dacc, d1, D, m0, left, j, p);
      n := |s.value|;
    } else {
      held, k', d, buf', rem', n := GenerateBuffered(kdf, k, mem, s.value, dacc, d1, buf, D, m0, left, j, p);
      ReachOn(dacc, dst, d1, d);
    }
    more := true;
  }

  /** The loop over the slices of the destination, after the buffered bytes. */
  method ServeRest<K(!new), I(!new)>(
    kdf: BlockKdf<K>, k: K, mem: array<byte>, dacc: Access<I, nat>, dst: I, buf: seq<byte>, rem: nat,
    ghost dst0: I, ghost m0: seq<byte>, ghost left: seq<byte>, ghost j0: nat, ghost aligned: I -> bool, ghost p: nat)
    returns (held: bool, k': K, buf': seq<byte>, rem': nat)
    requires IsBlockKdf(kdf) && IsAccess(dacc) && Reachable(dacc, dst0, dst)
    requires Served(dacc, dacc.view(dst0), dst, m0, left, j0, mem[..]) && Next(kdf, k, buf, rem, left, j0)
    requires (rem > 0 ==> j0 == |dacc.view(dst0)|) && j0 + p <= |left|
    requires Aligning(dacc, aligned, kdf.blockLen) && BufferOk(|buf|, kdf.blockLen, aligned, dst)
    requires p < kdf.blockLen && Tailed(kdf, k, |left|, j0, p)
    modifies mem
    ensures |buf'| == |buf| && mem[..] == Put(m0, dacc.view(dst0), left, |dacc.view(dst0)|)
    ensures Next(kdf, k', buf', rem', left, |dacc.view(dst0)|) && Tailed(kdf, k', |left|, |dacc.view(dst0)|, p)
    ensures HeldUpTo(dacc, dst0, kdf.blockLen, |left| - p, p, |dacc.view(dst0)|, held)
  {
    ghost var D := dacc.view(dst0);
    var d, more := dst, true;
    ghost var j := j0;
    held, k', buf', rem' := true, k, buf, rem;
    while more
      invariant Served(dacc, D, d, m0, left, j, mem[..]) && Next(kdf, k', buf', rem', left, j)
      invariant |buf'| == |buf| && BufferOk(|buf'|, kdf.blockLen, aligned, d)
      invariant (rem' > 0 ==> j == |D|) && (!more ==> j == |D|)
      invariant Reachable(dacc, dst0, d) && Tailed(kdf, k', |left|, j, p) && HeldUpTo(dacc, dst0, kdf.blockLen, |left| - p, p, j, held)
      decreases |D| - j, more
    {
      ghost var n, via := 0, d;
      var h;
      more, h, k', d, buf', rem', n := ServeNext(kdf, k', mem, dacc, d, buf', rem', D, m0, left, j, aligned, p);
      ReachOn(dacc, dst0, via, d);
      if more { HeldOn(dacc, dst0, kdf.blockLen, |left| - p, p, j, held, via, n, h); }
      held, j := held && h, j + n;
    }
  }

  /** `generate_chunk_impl`: a request is refused exactly if it exceeds what is left;
      otherwise it gets the bytes that come next, and those after it stay next. The
      assertion on the way holds exactly if a partial block is not reached, or all of the
      destination from there on is one piece. */
  method GenerateChunkImpl<K(!new), I(!new)>(
    kdf: BlockKdf<K>, k: K, mem: array<byte>, dacc: Access<I, nat>, dst: I, buf: seq<byte>, rem: nat,
    ghost left: seq<byte>, ghost aligned: I -> bool)
    returns (r: Result<nat>, held: bool, k': K, buf': seq<byte>)
    requires IsBlockKdf(kdf) && IsAccess(dacc) && Within(dacc.view(dst), mem.Length)
    requires Next(kdf, k, buf, rem, left, 0)
    requires Aligning(dacc, aligned, kdf.blockLen) && BufferOk(|buf|, kdf.blockLen, aligned, dst)
    modifies mem
    ensures |buf'| == |buf|
    ensures if |dacc.view(dst)| > |left| then
        r == Err(RequestTooBig) && held && k' == k && buf' == buf && mem[..] == old(mem[..])
      else
        && r.Ok? && mem[..] == Put(old(mem[..]), dacc.view(dst), left, |dacc.view(dst)|)
        && Next(kdf, k', buf', r.value, left, |dacc.view(dst)|)
        && var p := Tail(kdf.remaining(k), kdf.blockLen);
           && HeldUpTo(dacc, dst, kdf.blockLen, |left| - p, p, |dacc.view(dst)|, held)
           && Tailed(kdf, k', |left|, |dacc.view(dst)|, p)
  {
    held, k', buf' := true, k, buf;
    NextCount(kdf, k, buf, rem, left, 0);
    if |dacc.view(dst)| > kdf.remaining(k) + rem { return Err(RequestTooBig), held, k', buf'; }
    var d, rem', n0 := ServeBuffered(kdf, k, mem, dacc, dst, buf, rem, left);
    assert aligned(dst) ==> aligned(dacc.next(dst, Some(0)).1);
    ghost var p := Tail(kdf.remaining(k), kdf.blockLen);
    held, k', buf', rem' := ServeRest(kdf, k, mem, dacc, d, buf, rem', dst, old(mem[..]), left, n0, aligned, p);
    return Ok(rem'), held, k', buf';
  }

  // ---- generating and xoring ----

  /** `j` bytes of the destination `D` were xored with the first `j` of the bytes
      `left`. */
  ghost predicate XorServed<I>(dacc: Access<I, nat>, D: seq<nat>, d: I, m0: seq<byte>, left: seq<byte>, j: nat, m: seq<byte>) {
    Within(D, |m0|) && Distinct(D) && |D| <= |left| && Past(dacc, D, j, d) && m == Put(m0, D, Xored(m0, D, left), j)
  }

  lemma XorOn<I>(dacc: Access<I, nat>, D: seq<nat>, d: I, m0: seq<byte>, left: seq<byte>, j: nat, x: seq<byte>, w: seq<nat>, d': I, n: nat, m: seq<byte>)
    requires XorServed(dacc, D, d, m0, left, j, m) && j + |x| <= |left| && (forall i :: 0 <= i < |x| ==> x[i] == left[j + i])
    requires n == Min(|D| - j, |x|) && Past(dacc, w, n, d') && w == dacc.view(d)
    ensures Within(w, |m|) && XorServed(dacc, D, d', m0, left, j + n, Put(m, w, Xored(m, w, x), n))
  {
    var X, y := Xored(m0, D, left), Xored(m, w, x);
    forall i | 0 <= i < |w| ensures w[i] == D[j + i] { assert PastAt(dacc, D, j, d, i); }
    forall i | 0 <= i < n ensures y[i] == X[j + i] {
      XoredAt(m, w, x, i);
      XoredAt(m0, D, left, j + i);
      LoadBeyond(m0, D, X, j, j + i);
    }
    PutNext(m0, D, X, j, w, y, n);
    PastTwice(dacc, D, j, d, n, d');
  }

  /** Xor with what is in the buffer. */
  method XorBuffered<K(!new), I(!new)>(kdf: BlockKdf<K>, k: K, mem: array<byte>, dacc: Access<I, nat>, dst: I,
                                      buf: seq<byte>, rem: nat, ghost D: seq<nat>, ghost m0: seq<byte>, ghost left: seq<byte>, ghost j: nat)
    returns (d: I, rem': nat, n: nat)
    requires IsBlockKdf(kdf) && IsAccess(dacc) && XorServed(dacc, D, dst, m0, left, j, mem[..]) && Next(kdf, k, buf, rem, left, j)
    modifies mem
    ensures n == Min(rem, |D| - j) && rem' == rem - n && Settled(dacc, d)
    ensures XorServed(dacc, D, d, m0, left, j + n, mem[..]) && Next(kdf, k, buf, rem', left, j + n)
    ensures rem' == 0 || dacc.isEmpty(d)
  {
    var x := buf[|buf| - rem..];
    NextBytes(kdf, k, buf, rem, left, j);
    RestDistinct(dacc, D, j, dst);
    ghost var w, m := dacc.view(dst), mem[..];
    n, d := XorFromBytes(mem, dacc, dst, x);
    rem' := rem - n;
    XorOn(dacc, D, dst, m0, left, j, x, w, d, n, m);
    NextAdvance(kdf, k, buf, rem, left, j, n);
  }

  lemma RestDistinct<I>(dacc: Access<I, nat>, D: seq<nat>, j: nat, d: I)
    requires Past(dacc, D, j, d) && Distinct(D)
    ensures Distinct(dacc.view(d)) && forall n :: Within(D, n) ==> Within(dacc.view(d), n)
  {
    PastIs(dacc, D, j, d);
    DistinctPart(D, j, |D|);
    assert D[j..|D|] == D[j..];
  }

  /** One round of the loop below. */
  method XorNext<K(!new), I(!new)>(
    kdf: BlockKdf<K>, k: K, mem: array<byte>, dacc: Access<I, nat>, dst: I, buf: seq<byte>, rem: nat,
    ghost D: seq<nat>, ghost m0: seq<byte>, ghost left: seq<byte>, ghost j: nat, ghost p: nat)
    returns (k': K, d: I, buf': seq<byte>, rem': nat, ghost n: nat)
    requires IsBlockKdf(kdf) && IsAccess(dacc) && |buf| == kdf.blockLen && !dacc.isEmpty(dst)
    requires XorServed(dacc, D, dst, m0, left, j, mem[..]) && Next(kdf, k, buf, rem, left, j) && (rem > 0 ==> j == |D|)
    requires p < kdf.blockLen && Tailed(kdf, k, |left|, j, p)
    modifies mem
    ensures n > 0 && XorServed(dacc, D, d, m0, left, j + n, mem[..]) && Next(kdf, k', buf', rem', left, j + n)
    ensures |buf'| == |buf| && (rem' > 0 ==> j + n == |D|) && Settled(dacc, d)
    ensures Tailed(kdf, k', |left|, j + n, p)
  {
    assert dacc.view(dst) != [];
    NextCount(kdf, k, buf, rem, left, j);
    var c, n';
    k', buf', c := FillBuffer(kdf, k, buf, left, j);
    assert c == kdf.blockLen || c >= |dacc.view(dst)|;
    d, rem', n' := XorBuffered(kdf, k', mem, dacc, dst, buf', c, D, m0, left, j);
    n := n';
    NextCount(kdf, k', buf', rem', left, j + n);
    TailStep(kdf, k, k', |left|, j, p, c, n);
  }

  /** The loop, after the buffered bytes. */
  method XorRest<K(!new), I(!new)>(
    kdf: BlockKdf<K>, k: K, mem: array<byte>, dacc: Access<I, nat>, dst: I, buf: seq<byte>, rem: nat,
    ghost D: seq<nat>, ghost m0: seq<byte>, ghost left: seq<byte>, ghost j0: nat, ghost p: nat)
    returns (k': K, buf': seq<byte>, rem': nat)
    requires IsBlockKdf(kdf) && IsAccess(dacc) && |buf| == kdf.blockLen && Settled(dacc, dst)
    requires XorServed(dacc, D, dst, m0, left, j0, mem[..]) && Next(kdf, k, buf, rem, left, j0) && (rem > 0 ==> j0 == |D|)
    requires p < kdf.blockLen && Tailed(kdf, k, |left|, j0, p)
    modifies mem
    ensures |buf'| == |buf| && mem[..] == Put(m0, D, Xored(m0, D, left), |D|)
    ensures Next(kdf, k', buf', rem', left, |D|) && Tailed(kdf, k', |left|, |D|, p)
  {
    var cur := dst;
    ghost var j := j0;
    k', buf', rem' := k, buf, rem;
    while !dacc.isEmpty(cur)
      invariant XorServed(dacc, D, cur, m0, left, j, mem[..]) && Next(kdf, k', buf', rem', left, j)
      invariant |buf'| == |buf| && (rem' > 0 ==> j == |D|) && Settled(dacc, cur) && Tailed(kdf, k', |left|, j, p)
      decreases |D| - j
    {
      ghost var n;
      k', cur, buf', rem', n := XorNext(kdf, k', mem, dacc, cur, buf', rem', D, m0, left, j, p);
      j := j + n;
    }
    SettledIsRight(dacc, cur);
  }

  /** `generate_and_xor_chunk_impl`: the same for xoring. Xoring from the buffer ends
      with the destination exhausted or with a take of no length from it, so that its
      `is_empty` is right, also behind a reference. */
  method GenerateAndXorChunkImpl<K(!new), I(!new)>(
    kdf: BlockKdf<K>, k: K, mem: array<byte>, dacc: Access<I, nat>, dst: I, buf: seq<byte>, rem: nat, ghost left: seq<byte>)
    returns (r: Result<nat>, k': K, buf': seq<byte>)
    requires IsBlockKdf(kdf) && IsAccess(dacc) && Within(dacc.view(dst), mem.Length) && Distinct(dacc.view(dst))
    requires |buf| == kdf.blockLen && Next(kdf, k, buf, rem, left, 0)
    modifies mem
    ensures |buf'| == |buf|
    ensures if |dacc.view(dst)| > |left| then
        r == Err(RequestTooBig) && k' == k && buf' == buf && mem[..] == old(mem[..])
      else
        && r.Ok? && mem[..] == Put(old(mem[..]), dacc.view(dst), Xored(old(mem[..]), dacc.view(dst), left), |dacc.view(dst)|)
        && Next(kdf, k', buf', r.value, left, |dacc.view(dst)|)
        && Tailed(kdf, k', |left|, |dacc.view(dst)|, Tail(kdf.remaining(k), kdf.blockLen))
  {
    k', buf' := k, buf;
    NextCount(kdf, k, buf, rem, left, 0);
    if |dacc.view(dst)| > kdf.remaining(k) + rem { return Err(RequestTooBig), k', buf'; }
    ghost var D, m0 := dacc.view(dst), mem[..];
    PastStart(dacc, dst);
    var cur, rem', n0 := XorBuffered(kdf, k, mem, dacc, dst, buf, rem, D, m0, left, 0);
    ghost var p := Tail(kdf.remaining(k), kdf.blockLen);
    k', buf', rem' := XorRest(kdf, k, mem, dacc, cur, buf, rem', D, m0, left, n0, p);
    return Ok(rem'), k', buf';
  }

  /** A request xored in twice, from the same state and buffer, leaves the memory as it
      was: what one call encrypts, the other decrypts. */
  method XorChunkTwice<K(!new), I(!new)>(
    kdf: BlockKdf<K>, k: K, mem: array<byte>, dacc: Access<I, nat>, dst: I, buf: seq<byte>, rem: nat, ghost left: seq<byte>)
    requires IsBlockKdf(kdf) && IsAccess(dacc) && Within(dacc.view(dst), mem.Length) && Distinct(dacc.view(dst))
    requires |buf| == kdf.blockLen && Next(kdf, k, buf, rem, left, 0)
    modifies mem
    ensures mem[..] == old(mem[..])
  {
    if |dacc.view(dst)| <= |left| { XoredTwice(mem[..], dacc.view(dst), left, |dacc.view(dst)|); }
    var r, k', buf' := GenerateAndXorChunkImpl(kdf, k, mem, dacc, dst, buf, rem, left);
    r, k', buf' := GenerateAndXorChunkImpl(kdf, k, mem, dacc, dst, buf, rem, left);
  }
}
