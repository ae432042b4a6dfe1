/** A key derivation function that serves any series of requests
    (crypto/src/kdf/mod.rs). */
module KdfBuffered {
  import opened Results
  import opened Bytes
  import opened IoSlices
  import opened SliceMemory
  import opened SliceAccess
  import opened IoSliceOps
  import opened Layouts
  import opened Kdf
  import opened KdfPieces

  /** A request: where to put the key bytes, and whether to xor them in. */
  datatype KeyRequest<I> = KeyRequest(dst: I, xor: bool)

  ghost predicate RequestOk<I>(dacc: Access<I, nat>, r: KeyRequest<I>, n: nat) {
    Within(dacc.view(r.dst), n) && Distinct(dacc.view(r.dst))
  }

  /** The memory after a request that gets the first of the bytes `left`. */
  ghost function Filled<I>(dacc: Access<I, nat>, r: KeyRequest<I>, m: seq<byte>, left: seq<byte>): (m': seq<byte>)
    requires RequestOk(dacc, r, |m|)
    ensures |m'| == |m|
  {
    var D := dacc.view(r.dst);
    if |D| > |left| then m
    else Put(m, D, if r.xor then Xored(m, D, left) else left, |D|)
  }

  /** Address by address: the destination gets the bytes, or their exclusive or with what
      was there; nothing else changes. */
  lemma FilledIs<I>(dacc: Access<I, nat>, r: KeyRequest<I>, m: seq<byte>, left: seq<byte>, p: nat)
    requires RequestOk(dacc, r, |m|) && p < |m|
    ensures var D, m' := dacc.view(r.dst), Filled(dacc, r, m, left);
            && (|D| > |left| || p !in D ==> m'[p] == m[p])
            && (|D| <= |left| ==> forall i :: 0 <= i < |D| && D[i] == p ==> m'[p] == if r.xor then XorByte(m[p], left[i]) else left[i])
  {
    var D := dacc.view(r.dst);
    if |D| <= |left| {
      var x := if r.xor then Xored(m, D, left) else left;
      if p !in D {
        assert D[..|D|] == D;
        PutElsewhere(m, D, x, |D|, p);
      }
      forall i | 0 <= i < |D| && D[i] == p ensures Put(m, D, x, |D|)[p] == x[i] { PutAt(m, D, x, |D|, i); }
      forall i | 0 <= i < |D| && r.xor ensures x[i] == XorByte(m[D[i]], left[i]) { XoredAt(m, D, left, i); }
    }
  }

  ghost predicate RequestsOk<I>(dacc: Access<I, nat>, reqs: seq<KeyRequest<I>>, n: nat) {
    forall i :: 0 <= i < |reqs| ==> RequestOk(dacc, reqs[i], n)
  }

  /** What a request leaves: a refused one everything, any other what comes after
      its bytes. */
  ghost function After<I>(dacc: Access<I, nat>, r: KeyRequest<I>, left: seq<byte>): seq<byte> {
    if |dacc.view(r.dst)| > |left| then left else left[|dacc.view(r.dst)|..]
  }

  /** A series of requests against a flat string of key bytes. */
  ghost function Replay<I>(dacc: Access<I, nat>, reqs: seq<KeyRequest<I>>, m: seq<byte>, left: seq<byte>): (seq<byte>, seq<byte>)
    requires RequestsOk(dacc, reqs, |m|)
    decreases |reqs|
  {
    if reqs == [] then (m, left)
    else Replay(dacc, reqs[1..], Filled(dacc, reqs[0], m, left), After(dacc, reqs[0], left))
  }

  /** The number of key bytes the accepted ones of the first requests take. */
  ghost function Used<I>(dacc: Access<I, nat>, reqs: seq<KeyRequest<I>>, total: nat): (n: nat)
    ensures n <= total
    decreases |reqs|
  {
    if reqs == [] then 0
    else
      var n := |dacc.view(reqs[0].dst)|;
      if n > total then Used(dacc, reqs[1..], total) else n + Used(dacc, reqs[1..], total - n)
  }

  /** Nothing is skipped or handed out twice: what is left is what there was without
      the bytes used. */
  lemma {:induction false} UsedInOrder<I>(dacc: Access<I, nat>, reqs: seq<KeyRequest<I>>, m: seq<byte>, left: seq<byte>)
    requires RequestsOk(dacc, reqs, |m|)
    ensures Replay(dacc, reqs, m, left).1 == left[Used(dacc, reqs, |left|)..]
    decreases |reqs|
  {
    if reqs != [] {
      UsedInOrder(dacc, reqs[1..], Filled(dacc, reqs[0], m, left), After(dacc, reqs[0], left));
    }
  }

  lemma {:induction false} UsedNext<I>(dacc: Access<I, nat>, reqs: seq<KeyRequest<I>>, i: nat, total: nat)
    requires i < |reqs|
    ensures var u, n := Used(dacc, reqs[..i], total), |dacc.view(reqs[i].dst)|;
            Used(dacc, reqs[..i + 1], total) == if n > total - u then u else u + n
    decreases i
  {
    if i == 0 {
      assert reqs[..1] == [reqs[0]] && reqs[..1][1..] == [];
    } else {
      var n, rest := |dacc.view(reqs[0].dst)|, reqs[1..];
      assert reqs[..i][1..] == rest[..i - 1] && reqs[..i + 1][1..] == rest[..i];
      UsedNext(dacc, rest, i - 1, if n > total then total else total - n);
    }
  }

  // ---- where the assertion on partial blocks holds ----

  /** What a destination looks like behind `t` of its elements. */
  ghost predicate Tells<I(!new)>(dacc: Access<I, nat>, bl: nat, ends: (I, nat) -> bool) {
    forall dst, t: nat {:trigger ends(dst, t)} :: t <= |dacc.view(dst)| ==> EndsAfter(dacc, dst, t, bl, ends(dst, t))
  }

  /** Of `n` bytes, with a partial block of `p` at the end, the accepted request `i` is the
      one that gets the first of the partial block, and it is not a xoring one. */
  ghost predicate Crosses<I>(dacc: Access<I, nat>, reqs: seq<KeyRequest<I>>, n: nat, p: nat, i: nat)
    requires i < |reqs|
  {
    var u := Used(dacc, reqs[..i], n);
    !reqs[i].xor && p > 0 && u + p <= n < u + p + |dacc.view(reqs[i].dst)| <= n + p
  }

  /** Then all of its destination from there on has to be one piece. */
  ghost predicate SoundAt<I>(dacc: Access<I, nat>, reqs: seq<KeyRequest<I>>, n: nat, p: nat, ends: (I, nat) -> bool, i: nat)
    requires i < |reqs|
  {
    Crosses(dacc, reqs, n, p, i) ==> ends(reqs[i].dst, n - p - Used(dacc, reqs[..i], n))
  }
  ghost predicate Sound<I>(dacc: Access<I, nat>, reqs: seq<KeyRequest<I>>, n: nat, p: nat, ends: (I, nat) -> bool, k: nat)
    requires k <= |reqs|
  {
    forall i {:trigger SoundAt(dacc, reqs, n, p, ends, i)} :: 0 <= i < k ==> SoundAt(dacc, reqs, n, p, ends, i)
  }

  /** Directly, the rest of the destination has to be in one slice. */
  lemma TellsDirectly(bl: nat)
    ensures Tells(Iters<nat>(), bl, (dst: SliceIter<nat>, t: nat) => RestIsOne(dst, t))
  {
    forall dst: SliceIter<nat>, t: nat
      ensures t <= |View(dst)| ==> EndsAfter(Iters<nat>(), dst, t, bl, RestIsOne(dst, t))
    {
      if t <= |View(dst)| { EndsDirectly(dst, t, bl); }
    }
  }

  /** Through a reference it has to pass for empty behind the slice. */
  lemma TellsThroughReference(bl: nat)
    ensures Tells(ByRef(Iters<nat>()), bl, (dst: SliceIter<nat>, t: nat) => LastPiece(LayoutOf(dst), t))
  {
    forall dst: SliceIter<nat>, t: nat ensures EndsAfter(ByRef(Iters<nat>()), dst, t, bl, LastPiece(LayoutOf(dst), t)) {
      EndsThroughReference(dst, t, bl);
    }
  }

  /** At most one request can fail. */
  lemma CrossedOnce<I>(dacc: Access<I, nat>, reqs: seq<KeyRequest<I>>, n: nat, p: nat, i: nat, j: nat)
    requires i < j < |reqs| && Crosses(dacc, reqs, n, p, i)
    ensures !Crosses(dacc, reqs, n, p, j)
  {
    UsedNext(dacc, reqs, i, n);
    UsedGrows(dacc, reqs, i + 1, j, n);
  }
  lemma {:induction false} UsedGrows<I>(dacc: Access<I, nat>, reqs: seq<KeyRequest<I>>, i: nat, j: nat, n: nat)
    requires i <= j <= |reqs|
    ensures Used(dacc, reqs[..i], n) <= Used(dacc, reqs[..j], n)
  {
    if i < j {
      UsedGrows(dacc, reqs, i, j - 1, n);
      UsedNext(dacc, reqs, j - 1, n);
    }
  }

  class BufferedKdf<K(!new)> {
    const kdf: BlockKdf<K>
    var state: K
    var blockBuf: seq<byte>
    var remaining: nat

    ghost predicate Valid() reads this { IsBlockKdf(kdf) && |blockBuf| == kdf.blockLen && remaining <= |blockBuf| }

    /** All key bytes that can still be requested. */
    ghost function Left(): seq<byte>
      requires Valid()
      reads this
    {
      blockBuf[|blockBuf| - remaining..] + Stream(kdf, state)
    }

    /** The length of the partial block at the end, if it is still to be generated. */
    ghost function Part(): (p: nat)
      requires Valid()
      ensures p < kdf.blockLen && p <= |Left()|
      reads this
    {
      Tail(kdf.remaining(state), kdf.blockLen)
    }

    lemma LeftIsNext()
      requires Valid()
      ensures Next(kdf, state, blockBuf, remaining, Left(), 0)
    {
      NextIs(kdf, state, blockBuf, remaining, Left(), 0);
      assert Left()[remaining..] == Stream(kdf, state);
    }

    lemma NextIsLeft(left: seq<byte>, j: nat)
      requires Valid() && Next(kdf, state, blockBuf, remaining, left, j)
      ensures Left() == left[j..]
    {
      NextIs(kdf, state, blockBuf, remaining, left, j);
      assert Stream(kdf, state) == left[j + remaining..];
      assert left[j..] == left[j..j + remaining] + left[j + remaining..];
    }

    constructor (block_kdf: BlockKdf<K>, initial: K)
      requires IsBlockKdf(block_kdf)
      ensures Valid() && Left() == Stream(block_kdf, initial)
    {
      kdf, state, remaining := block_kdf, initial, 0;
      blockBuf := Zeros(block_kdf.blockLen);
    }

    /** `max_remaining_len`. */
    method MaxRemainingLen() returns (n: nat)
      requires Valid()
      ensures n == |Left()|
    {
      n := kdf.remaining(state) + remaining;
    }

    /** `generate_chunk`. */
    method GenerateChunk<I(!new)>(mem: array<byte>, dacc: Access<I, nat>, dst: I) returns (r: Result<()>, held: bool)
      requires Valid() && IsAccess(dacc) && RequestOk(dacc, KeyRequest(dst, false), mem.Length)
      modifies this, mem
      ensures Valid() && r == (if |dacc.view(dst)| > |old(Left())| then Err(RequestTooBig) else Ok(()))
      ensures mem[..] == Filled(dacc, KeyRequest(dst, false), old(mem[..]), old(Left()))
      ensures Left() == After(dacc, KeyRequest(dst, false), old(Left()))
      ensures Part() == if old(Part()) <= |Left()| then old(Part()) else 0
      ensures HeldOnce(dacc, KeyRequest(dst, false), |old(Left())|, old(Part()), held)
    {
      LeftIsNext();
      ghost var left := Left();
      r, held := ChunkOf(mem, dacc, dst, left);
      if r.Ok? { NextIsLeft(left, |dacc.view(dst)|); }
    }

    method ChunkOf<I(!new)>(mem: array<byte>, dacc: Access<I, nat>, dst: I, ghost left: seq<byte>) returns (r: Result<()>, held: bool)
      requires Valid() && IsAccess(dacc) && RequestOk(dacc, KeyRequest(dst, false), mem.Length)
      requires Next(kdf, state, blockBuf, remaining, left, 0)
      modifies this, mem
      ensures Valid() && r == (if |dacc.view(dst)| > |left| then Err(RequestTooBig) else Ok(()))
      ensures mem[..] == Filled(dacc, KeyRequest(dst, false), old(mem[..]), left)
      ensures if r.Ok? then Next(kdf, state, blockBuf, remaining, left, |dacc.view(dst)|)
              else state == old(state) && blockBuf == old(blockBuf) && remaining == old(remaining)
      ensures r.Ok? ==> Part() == if old(Part()) + |dacc.view(dst)| <= |left| then old(Part()) else 0
      ensures HeldOnce(dacc, KeyRequest(dst, false), |left|, old(Part()), held)
    {
      var n, state', buf;
      n, held, state', buf := GenerateChunkImpl(kdf, state, mem, dacc, dst, blockBuf, remaining, left, _ => false);
      blockBuf := buf;
      state := state';
      if n.Err? { return Err(n.error), held; }
      remaining := n.value;
      return Ok(()), held;
    }
  
    /** `generate_and_xor_chunk`. */
    method GenerateAndXorChunk<I(!new)>(mem: array<byte>, dacc: Access<I, nat>, dst: I) returns (r: Result<()>)
      requires Valid() && IsAccess(dacc) && RequestOk(dacc, KeyRequest(dst, true), mem.Length)
      modifies this, mem
      ensures Valid() && r == (if |dacc.view(dst)| > |old(Left())| then Err(RequestTooBig) else Ok(()))
      ensures mem[..] == Filled(dacc, KeyRequest(dst, true), old(mem[..]), old(Left()))
      ensures Left() == After(dacc, KeyRequest(dst, true), old(Left()))
      ensures Part() == if old(Part()) <= |Left()| then old(Part()) else 0
    {
      LeftIsNext();
      ghost var left := Left();
      var n, state', buf := GenerateAndXorChunkImpl(kdf, state, mem, dacc, dst, blockBuf, remaining, left);
      blockBuf := buf;
      state := state';
      if n.Err? { return Err(n.error); }
      remaining := n.value;
      NextIsLeft(left, |dacc.view(dst)|);
      return Ok(());
    }

    /** Any series of mixed requests gets consecutive key bytes, each request the
        ones after those of the request before, however all of them are sliced. The
        assertion fails exactly for a request that crosses into a partial block and has
        more than one piece there. */
    method Serve<I(!new)>(mem: array<byte>, dacc: Access<I, nat>, reqs: seq<KeyRequest<I>>) returns (held: bool)
      requires Valid() && IsAccess(dacc) && RequestsOk(dacc, reqs, mem.Length)
      modifies this, mem
      ensures Valid() && (mem[..], Left()) == Replay(dacc, reqs, old(mem[..]), old(Left()))
      ensures Left() == old(Left())[Used(dacc, reqs, |old(Left())|)..]
      ensures forall ends {:trigger Tells(dacc, kdf.blockLen, ends)} :: Tells(dacc, kdf.blockLen, ends) ==>
        (held <==> Sound(dacc, reqs, |old(Left())|, old(Part()), ends, |reqs|))
    {
      UsedInOrder(dacc, reqs, mem[..], Left());
      held := true;
      ghost var n, p := |Left()|, Part();
      assert reqs[0..] == reqs;
      for i := 0 to |reqs|
        invariant Valid() && RequestsOk(dacc, reqs[i..], mem.Length)
        invariant Replay(dacc, reqs[i..], mem[..], Left()) == Replay(dacc, reqs, old(mem[..]), old(Left()))
        invariant |Left()| == n - Used(dacc, reqs[..i], n) && Part() == if p <= |Left()| then p else 0
        invariant HeldBefore(dacc, reqs, n, p, i, held)
      {
        assert reqs[i..][0] == reqs[i] && reqs[i..][1..] == reqs[i + 1..];
        UsedNext(dacc, reqs, i, n);
        ghost var n', p' := |Left()|, Part();
        var h := ServeOne(mem, dacc, reqs[i]);
        HeldNext(dacc, reqs, n, p, i, n', p', held, h);
        held := held && h;
      }
    }

    /** The assertion held for the first requests exactly if all of them are sound. */
    ghost predicate HeldBefore<I(!new)>(dacc: Access<I, nat>, reqs: seq<KeyRequest<I>>, n: nat, p: nat, i: nat, held: bool)
      requires i <= |reqs|
    {
      forall ends {:trigger Tells(dacc, kdf.blockLen, ends)} :: Tells(dacc, kdf.blockLen, ends) ==>
        (held <==> Sound(dacc, reqs, n, p, ends, i))
    }

    /** One request, with `n` bytes left and a partial block of `p` to come. */
    ghost predicate HeldOnce<I(!new)>(dacc: Access<I, nat>, req: KeyRequest<I>, n: nat, p: nat, held: bool) {
      if req.xor || |dacc.view(req.dst)| > n then held
      else HeldUpTo(dacc, req.dst, kdf.blockLen, n - p, p, |dacc.view(req.dst)|, held)
    }

    lemma HeldNext<I(!new)>(dacc: Access<I, nat>, reqs: seq<KeyRequest<I>>, n: nat, p: nat, i: nat,
                              n': nat, p': nat, held: bool, h: bool)
      requires i < |reqs| && p <= n && HeldBefore(dacc, reqs, n, p, i, held)
      requires n' == n - Used(dacc, reqs[..i], n) && p' == (if p <= n' then p else 0) && HeldOnce(dacc, reqs[i], n', p', h)
      ensures HeldBefore(dacc, reqs, n, p, i + 1, held && h)
    {
      forall ends | Tells(dacc, kdf.blockLen, ends) ensures held && h <==> Sound(dacc, reqs, n, p, ends, i + 1) {
        SoundNext(dacc, reqs, n, p, ends, i, n', p', h);
        assert Sound(dacc, reqs, n, p, ends, i + 1) <==> Sound(dacc, reqs, n, p, ends, i) && SoundAt(dacc, reqs, n, p, ends, i);
      }
    }

    lemma SoundNext<I(!new)>(dacc: Access<I, nat>, reqs: seq<KeyRequest<I>>, n: nat, p: nat, ends: (I, nat) -> bool, i: nat,
                               n': nat, p': nat, h: bool)
      requires i < |reqs| && p <= n && Tells(dacc, kdf.blockLen, ends)
      requires n' == n - Used(dacc, reqs[..i], n) && p' == (if p <= n' then p else 0) && HeldOnce(dacc, reqs[i], n', p', h)
      ensures h <==> SoundAt(dacc, reqs, n, p, ends, i)
    {
      var dst, t := reqs[i].dst, n' - p;
      if 0 <= t <= |dacc.view(dst)| { assert EndsAfter(dacc, dst, t, kdf.blockLen, ends(dst, t)); }
    }

    method ServeOne<I(!new)>(mem: array<byte>, dacc: Access<I, nat>, req: KeyRequest<I>) returns (held: bool)
      requires Valid() && IsAccess(dacc) && RequestOk(dacc, req, mem.Length)
      modifies this, mem
      ensures Valid() && mem[..] == Filled(dacc, req, old(mem[..]), old(Left())) && Left() == After(dacc, req, old(Left()))
      ensures Part() == if old(Part()) <= |Left()| then old(Part()) else 0
      ensures HeldOnce(dacc, req, |old(Left())|, old(Part()), held)
    {
      held := true;
      var r;
      if req.xor {
        r := GenerateAndXorChunk(mem, dacc, req.dst);
      } else {
        r, held := GenerateChunk(mem, dacc, req.dst);
      }
    }
  }
}
