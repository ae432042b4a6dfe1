/** A key derivation function that serves a single request
    (crypto/src/kdf/tcg_tpm2_kdf_a.rs). */
module KdfOnce {
  import opened Arith
  import opened Results
  import opened Bytes
  import opened IoSlices
  import opened SliceMemory
  import opened SliceAccess
  import opened Layouts
  import opened Hashing
  import opened Kdf
  import opened KdfBlocks
  import opened KdfPieces

  /** `all_lengths_multiple_of`, of the slices of a walk. */
  predicate Multiples(w: seq<seq<nat>>, bl: nat)
    requires bl > 0
  {
    forall i :: 0 <= i < |w| ==> |w[i]| % bl == 0
  }
  predicate AllMultiples(it: SliceIter<nat>, bl: nat)
    requires bl > 0
  {
    Multiples(Walk(it), bl)
  }

  lemma CutMultiples(w: seq<seq<nat>>, m: nat, bl: nat)
    requires bl > 0 && Multiples(w, bl) && (m == 0 || m == bl) && |w| > 0 && (m == bl ==> |w[0]| > 0)
    ensures Multiples(Remainder(w[0], Some(m)) + w[1..], bl) && |HeadPart(w[0], Some(m))| == m
  {
    var n := |w[0]|;
    assert n % bl == 0;
    if m == bl { MultiplesApart(0, n, bl); }
    ModShift(0, 1, bl);
    SameRemainder(m, n, bl);
    var r := Remainder(w[0], Some(m));
    var z: seq<seq<nat>> := r + w[1..];
    forall i | 0 <= i < |z| ensures |z[i]| % bl == 0 {
      if i >= |r| { assert z[i] == w[i - |r| + 1]; }
    }
  }

  lemma TakeAligns(it: SliceIter<nat>, m: nat, bl: nat)
    requires bl > 0 && AllMultiples(it, bl) && (m == 0 || m == bl)
    ensures var t := NextSlice(it, Some(m));
            AllMultiples(t.rest, bl) && (t.slice.Some? ==> |t.slice.value| == m)
  {
    TakeCutsWalk(it, Some(m));
    if View(it) != [] {
      NextSliceLength(it, Some(m));
      CutMultiples(Walk(it), m, bl);
    } else {
      TakeCutsWalk(NextSlice(it, Some(m)).rest, Some(m));
    }
  }

  /** If all slices are multiples of a block, pieces of a block always are blocks. */
  lemma MultiplesAlign(bl: nat)
    requires bl > 0
    ensures Aligning(Iters<nat>(), (it: SliceIter<nat>) => AllMultiples(it, bl), bl)
  {
    forall it: SliceIter<nat>, max: Option<nat> | AllMultiples(it, bl) && (max == Some(0) || max == Some(bl))
      ensures var (s, rest) := IterNext(it, max);
              AllMultiples(rest, bl) && (max == Some(bl) && s.Some? ==> |s.value| == bl)
    {
      TakeAligns(it, max.value, bl);
    }
  }

  lemma ThroughAligns(byRef: bool, bl: nat)
    requires bl > 0
    ensures IsAccess(Through(byRef)) && Aligning(Through(byRef), (it: SliceIter<nat>) => AllMultiples(it, bl), bl)
  {
    ItersKeepPromises<nat>();
    ByRefKeepsPromises(Iters<nat>());
    MultiplesAlign(bl);
    var acc := Through(byRef);
    forall it: SliceIter<nat>, max ensures acc.next(it, max) == Iters<nat>().next(it, max) {}
  }

  method GenerateWith<K(!new)>(kdf: BlockKdf<K>, k: K, mem: array<byte>, dst: SliceIter<nat>, byRef: bool, buf: seq<byte>)
    returns (held: bool)
    requires IsBlockKdf(kdf) && Within(View(dst), mem.Length) && |View(dst)| <= kdf.remaining(k)
    requires |buf| == kdf.blockLen || (|buf| == 0 && AllMultiples(dst, kdf.blockLen))
    modifies mem
    ensures mem[..] == Put(old(mem[..]), View(dst), Stream(kdf, k), |View(dst)|)
    ensures held <==> KeepsTail(dst, byRef, kdf.remaining(k), kdf.blockLen)
  {
    ThroughAligns(byRef, kdf.blockLen);
    NextIs(kdf, k, buf, 0, Stream(kdf, k), 0);
    ghost var n := kdf.remaining(k);
    var acc := Through(byRef);
    assert acc.view(dst) == View(dst);
    var r, k', buf';
    r, held, k', buf' := GenerateChunkImpl(kdf, k, mem, acc, dst, buf, 0, Stream(kdf, k),
                                           (it: SliceIter<nat>) => AllMultiples(it, kdf.blockLen));
    HeldThrough(dst, byRef, kdf.blockLen, n, Tail(n, kdf.blockLen), held);
  }

  /** `generate` of the KDFs, consuming them: no buffer at all if every slice is a
      multiple of a block. The destination is an iterator or a reference to one. */
  method GenerateOnce<K(!new)>(kdf: BlockKdf<K>, k: K, mem: array<byte>, dst: SliceIter<nat>, byRef: bool)
    returns (r: Result<()>, held: bool)
    requires IsBlockKdf(kdf) && Within(View(dst), mem.Length)
    modifies mem
    ensures r == if |View(dst)| > kdf.remaining(k) then Err(RequestTooBig) else Ok(())
    ensures mem[..] == if r.Ok? then Put(old(mem[..]), View(dst), Stream(kdf, k), |View(dst)|) else old(mem[..])
    ensures held <==> r.Err? || KeepsTail(dst, byRef, kdf.remaining(k), kdf.blockLen)
  {
    held := true;
    if |View(dst)| > kdf.remaining(k) { return Err(RequestTooBig), held; }
    var buf := if AllMultiples(dst, kdf.blockLen) then [] else Zeros(kdf.blockLen);
    r := Ok(());
    held := GenerateWith(kdf, k, mem, dst, byRef, buf);
  }

  function TwoBuffers(x: seq<nat>, y: seq<nat>): (it: SliceIter<nat>)
    ensures View(it) == x + y
  {
    assert Flatten([x, y]) == x + Flatten([y]) && Flatten([y]) == y + Flatten([]);
    Buffers(None, [x, y], None)
  }

  /** A key shorter than a block, asked for in two slices. */
  lemma SplitsTail(x: seq<nat>, y: seq<nat>, byRef: bool, n: nat, bl: nat)
    requires x != [] && y != [] && |x| + |y| == n < bl
    ensures !KeepsTail(TwoBuffers(x, y), byRef, n, bl)
  {
    var dst := TwoBuffers(x, y);
    assert NonEmpty([y]) == [y] + NonEmpty([]) && NonEmpty([x, y]) == [x] + NonEmpty([y]);
    assert Walk(dst) == [x, y];
    var l := LayoutOf(dst);
    assert l == [[x, y]];
    DropNothing(l);
  }

  /** The assertion fails for KDFa: for 80 bits in slices of 4 and 6 bytes with digests of
      32, and for 320 bits in slices of 8 and 32 bytes with digests of 64, which is how
      `gen_random_scalar` draws a scalar of 32 bytes. */
  method KeyInTwoSlices(mem: array<byte>, hmac: Hash, bl: nat, lab: seq<byte>, u: Option<seq<byte>>, v: Option<seq<byte>>,
                        bits: nat, x: seq<nat>, y: seq<nat>, byRef: bool)
    returns (r: Result<()>, held: bool)
    requires IsHash(hmac, bl) && |x| + |y| == DivCeil8(bits) < bl && x != [] && y != [] && Within(x + y, mem.Length)
    modifies mem
    ensures r.Ok? && !held
  {
    var kdf := KdfA(hmac, bl, lab, u, v, bits);
    CountingKdfOk(hmac, bits, bl, (i: nat) => KdfAInput(lab, u, v, bits, i));
    SplitsTail(x, y, byRef, kdf.remaining(0), bl);
    r, held := GenerateOnce(kdf, 0, mem, TwoBuffers(x, y), byRef);
  }
}
