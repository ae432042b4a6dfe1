/** Applying a block transform with state over fragmented messages
    (crypto/src/symcipher.rs, crypto/src/pure_rust/symcipher/mod.rs). */
module SymCipher {
  import opened Arith
  import opened Results
  import opened Bytes
  import opened IoSlices
  import opened SliceMemory
  import opened SliceAccess
  import opened IoSliceOps

  /** A block cipher mode: from a state and a block to the next state and the
      transformed block. */
  type Transform<!S> = (S, seq<byte>) -> (S, seq<byte>)

  ghost predicate IsTransform<S(!new)>(bt: Transform<S>, bl: nat) {
    bl > 0 && forall st, b {:trigger bt(st, b)} :: |b| == bl ==> |bt(st, b).1| == bl
  }

  // ---- specification ----

  /** The flat message transformed block by block, the last one padded with zeros
      and cut off again. */
  ghost function Flat<S(!new)>(bt: Transform<S>, bl: nat, st: S, msg: seq<byte>): (r: (S, seq<byte>))
    requires IsTransform(bt, bl)
    ensures |r.1| == |msg|
    decreases |msg|
  {
    if msg == [] then (st, [])
    else if |msg| < bl then
      var (st', o) := bt(st, msg + Zeros(bl - |msg|));
      (st', o[..|msg|])
    else
      var (st', o) := bt(st, msg[..bl]);
      var (fin, rest) := Flat(bt, bl, st', msg[bl..]);
      (fin, o + rest)
  }

  /** From state `st`, the rest of the message after `k` bytes gives the rest of the
      output and the final state. */
  ghost predicate Reached<S(!new)>(bt: Transform<S>, bl: nat, msg: seq<byte>, all: (S, seq<byte>), k: nat, st: S)
    requires IsTransform(bt, bl)
  {
    && k <= |msg| == |all.1|
    && forall rest {:trigger Flat(bt, bl, st, rest)} :: rest == msg[k..] ==> Flat(bt, bl, st, rest) == (all.0, all.1[k..])
  }

  lemma ReachBlock<S(!new)>(bt: Transform<S>, bl: nat, msg: seq<byte>, all: (S, seq<byte>), k: nat, st: S, block: seq<byte>)
    requires IsTransform(bt, bl) && Reached(bt, bl, msg, all, k, st) && |block| == bl && k + bl <= |msg|
    requires forall i :: 0 <= i < bl ==> block[i] == msg[k + i]
    ensures var (st', o) := bt(st, block);
            && Reached(bt, bl, msg, all, k + bl, st')
            && forall i :: 0 <= i < bl ==> o[i] == all.1[k + i]
  {
    var rest := msg[k..];
    assert rest[..bl] == block && rest[bl..] == msg[k + bl..];
    var (st', o) := bt(st, block);
    var (fin, out) := Flat(bt, bl, st', rest[bl..]);
    assert Flat(bt, bl, st, rest) == (fin, o + out);
    forall i | 0 <= i < bl ensures o[i] == all.1[k + i] { assert all.1[k..][i] == o[i]; }
    assert all.1[k..][bl..] == all.1[k + bl..];
  }

  // ---- the paths ----

  /** A batch of whole blocks from one slice each. */
  method TransformBatch<S(!new)>(mem: array<byte>, a: seq<nat>, x: seq<byte>, bt: Transform<S>, bl: nat, st: S) returns (st': S)
    requires IsTransform(bt, bl) && Within(a, mem.Length) && |a| == |x| && |x| % bl == 0
    modifies mem
    ensures var (fin, out) := Flat(bt, bl, st, x); st' == fin && mem[..] == Put(old(mem[..]), a, out, |x|)
  {
    ghost var all := Flat(bt, bl, st, x);
    assert x[0..] == x && all.1[0..] == all.1;
    st' := st;
    var pos := 0;
    while pos != |x|
      invariant 0 <= pos <= |x| && pos % bl == 0
      invariant Reached(bt, bl, x, all, pos, st') && mem[..] == Put(old(mem[..]), a, all.1, pos)
      decreases |x| - pos
    {
      MultiplesApart(pos, |x|, bl);
      var block := x[pos..pos + bl];
      ReachBlock(bt, bl, x, all, pos, st', block);
      var (next, o) := bt(st', block);
      WriteSlice(mem, a[pos..pos + bl], o, old(mem[..]), a, all.1, pos);
      st', pos := next, pos + bl;
    }
    assert x[pos..] == [] && Flat(bt, bl, st', []) == (st', []);
  }

  /** Block by block: with the states that the blocks before lead to, block `q` of the
      output is the transform of block `q` of the message. */
  lemma {:induction false} FlatBlock<S(!new)>(bt: Transform<S>, bl: nat, states: seq<S>, msg: seq<byte>, q: nat, i: nat)
    requires IsTransform(bt, bl) && q < |states| && i + bl <= |msg| && i == q * bl
    requires forall k: nat :: k < q ==> Steps(bt, bl, states, msg, k)
    ensures Flat(bt, bl, states[0], msg).1[i..i + bl] == bt(states[q], msg[i..i + bl]).1
    decreases q
  {
    var (st, o) := bt(states[0], msg[..bl]);
    var rest := Flat(bt, bl, st, msg[bl..]);
    var all := Flat(bt, bl, states[0], msg);
    assert all == (rest.0, o + rest.1);
    if q == 0 {
      assert all.1[0..bl] == o && msg[0..bl] == msg[..bl];
    } else {
      assert Steps(bt, bl, states, msg, 0);
      MulAtLeast(bl, q);
      MulDistributes(bl, q - 1, 1);
      var next, tail := states[1..], msg[bl..];
      forall k: nat | k < q - 1 ensures Steps(bt, bl, next, tail, k) { StepsOn(bt, bl, states, msg, k); }
      FlatBlock(bt, bl, next, tail, q - 1, i - bl);
      assert msg[i..i + bl] == tail[i - bl..i];
      assert all.1[i..i + bl] == rest.1[i - bl..i];
    }
  }
  /** State `k + 1` is the one that block `k` leads to. */
  ghost predicate Steps<S(!new)>(bt: Transform<S>, bl: nat, states: seq<S>, msg: seq<byte>, k: nat) {
    && k + 1 < |states| && 0 <= k * bl <= (k + 1) * bl <= |msg|
    && states[k + 1] == bt(states[k], msg[k * bl..(k + 1) * bl]).0
  }
  lemma StepsOn<S(!new)>(bt: Transform<S>, bl: nat, states: seq<S>, msg: seq<byte>, k: nat)
    requires bl <= |msg| && |states| > 0 && Steps(bt, bl, states, msg, k + 1)
    ensures Steps(bt, bl, states[1..], msg[bl..], k)
  {
    MulDistributes(bl, k, 1);
    MulDistributes(bl, k + 1, 1);
    assert msg[bl..][k * bl..(k + 1) * bl] == msg[(k + 1) * bl..(k + 2) * bl];
  }

  /** A transform that undoes another one block by block, for related states, undoes it on
      messages of whole blocks. */
  ghost predicate Undoes<S(!new), U(!new)>(bt: Transform<S>, un: Transform<U>, bl: nat, related: (S, U) -> bool) {
    forall s, u, b {:trigger related(s, u), bt(s, b)} :: related(s, u) && |b| == bl ==>
      var (s', o) := bt(s, b);
      un(u, o).1 == b && related(s', un(u, o).0)
  }
  lemma {:induction false} FlatUndone<S(!new), U(!new)>(bt: Transform<S>, un: Transform<U>, bl: nat, related: (S, U) -> bool, s: S, u: U, msg: seq<byte>)
    requires IsTransform(bt, bl) && IsTransform(un, bl) && Undoes(bt, un, bl, related) && related(s, u) && |msg| % bl == 0
    ensures var (s', out) := Flat(bt, bl, s, msg);
            var (u', back) := Flat(un, bl, u, out);
            back == msg && related(s', u')
    decreases |msg|
  {
    if msg != [] {
      MultiplesApart(0, |msg|, bl);
      SameRemainder(bl, |msg|, bl);
      var (s1, o) := bt(s, msg[..bl]);
      var u1 := un(u, o).0;
      assert related(s, u) && un(u, o).1 == msg[..bl];
      var rest := Flat(bt, bl, s1, msg[bl..]);
      FlatUndone(bt, un, bl, related, s1, u1, msg[bl..]);
      var out := o + rest.1;
      assert Flat(bt, bl, s, msg) == (rest.0, out);
      assert out[..bl] == o && out[bl..] == rest.1;
    }
  }

  /** Transforming a front of whole blocks first. */
  lemma {:induction false} FlatFront<S(!new)>(bt: Transform<S>, bl: nat, st: S, msg: seq<byte>, n: nat)
    requires IsTransform(bt, bl) && n <= |msg| && n % bl == 0
    ensures var (mid, out) := Flat(bt, bl, st, msg[..n]);
            var all := Flat(bt, bl, st, msg);
            Reached(bt, bl, msg, all, n, mid) && out == all.1[..n]
    decreases n
  {
    var all := Flat(bt, bl, st, msg);
    if n == 0 {
      assert msg[0..] == msg && all.1[0..] == all.1;
    } else {
      MultiplesApart(0, n, bl);
      SameRemainder(bl, n, bl);
      var (st1, o) := bt(st, msg[..bl]);
      assert msg[..n][..bl] == msg[..bl] && msg[..n][bl..] == msg[bl..][..n - bl];
      FlatFront(bt, bl, st1, msg[bl..], n - bl);
      var rest := Flat(bt, bl, st1, msg[bl..]);
      assert all == (rest.0, o + rest.1);
      assert msg[bl..][n - bl..] == msg[n..] && rest.1[n - bl..] == all.1[n..];
      assert all.1[..n] == o + rest.1[..n - bl];
    }
  }

  lemma FirstRest<I, T>(acc: Access<I, T>, v: seq<T>, s: seq<T>, rest: I)
    requires First(acc, v, s, rest)
    ensures forall i :: 0 <= i < |acc.view(rest)| ==> acc.view(rest)[i] == v[|s| + i]
  {
    PastIs(acc, v, |s|, rest);
  }

  /** Collect the next block in the scratch buffer, padding a last partial one. */
  method GatherBlock<J(!new)>(scratch: array<byte>, x: seq<byte>, sacc: Access<J, byte>, src: J, partialOk: bool, ghost v: seq<byte>)
    returns (ok: bool, n: nat, s: J)
    requires IsAccess(sacc) && |x| <= scratch.Length && First(sacc, v, x, src)
    modifies scratch
    ensures n == Min(scratch.Length, |v|) && ok == (partialOk || n == scratch.Length) && Past(sacc, v, n, s)
    ensures ok ==> forall i :: 0 <= i < scratch.Length ==> scratch[i] == if i < n then v[i] else 0
  {
    for i := 0 to |x|
      invariant forall k :: 0 <= k < i ==> scratch[k] == v[k]
    {
      scratch[i] := x[i];
    }
    var c;
    FirstRest(sacc, v, x, src);
    c, s := CopyIntoBuffer(scratch, |x|, sacc, src);
    label Filled:
    n := |x| + c;
    PastTwice(sacc, v, |x|, src, c, s);
    ok := partialOk || n == scratch.Length;
    if ok {
      for i := n to scratch.Length
        invariant forall k :: 0 <= k < n ==> scratch[k] == old@Filled(scratch[k])
        invariant forall k :: n <= k < i ==> scratch[k] == 0
      {
        scratch[i] := 0;
      }
    }
  }

  // ---- one call ----

  datatype Step = More | Done | Failed(error: CryptoError) | Panicked

  /** The first `n` bytes of the message `v` are dealt with: their transform, of which
      `all` is the whole, has been written to the first `n` addresses of `D`. */
  ghost predicate Progress<S(!new)>(bt: Transform<S>, bl: nat, v: seq<byte>, all: (S, seq<byte>), st: S, n: nat, m0: seq<byte>, D: seq<nat>, m: seq<byte>)
    requires IsTransform(bt, bl) && Within(D, |m0|)
  {
    n <= |D| && n <= |v| && Reached(bt, bl, v, all, n, st) && m == Put(m0, D, all.1, n)
  }

  /** Both sides have one length, and whole blocks unless partial ones are allowed. */
  ghost predicate Matching<I, J>(dacc: Access<I, nat>, dst: I, sacc: Access<J, byte>, src: J, bl: nat, partialOk: bool)
    requires bl > 0
  {
    |dacc.view(dst)| == |sacc.view(src)| && (partialOk || |sacc.view(src)| % bl == 0)
  }

  /** The source is less than a block, and less than the first piece of the destination:
      what is left of the block would be sliced out of range. */
  ghost predicate OutOfRange<I, J>(dacc: Access<I, nat>, dst: I, sacc: Access<J, byte>, src: J, bl: nat, partialOk: bool) {
    partialOk && 0 < |sacc.view(src)| < bl && |Slot(dacc.next(dst, Some(bl)).0)| > |sacc.view(src)|
  }

  lemma OneByteForTwo()
    ensures var dst: SliceIter<nat>, src: SliceIter<byte> := Singleton(Some([0, 1])), Singleton(Some([9]));
            OutOfRange(Iters<nat>(), dst, Iters<byte>(), src, 16, true)
  {
    var dst: SliceIter<nat>, src: SliceIter<byte> := Singleton(Some([0, 1])), Singleton(Some([9]));
    assert View(src) == [9] && IterNext(dst, Some(16)).0 == Some([0, 1][..2]);
  }

  method BatchStep<S(!new)>(mem: array<byte>, a: seq<nat>, x: seq<byte>, bt: Transform<S>, bl: nat, st: S,
                            ghost D: seq<nat>, ghost v: seq<byte>, ghost all: (S, seq<byte>))
    returns (st': S)
    requires IsTransform(bt, bl) && Within(D, mem.Length) && |a| == |x| && |x| % bl == 0
    requires |a| <= |D| && |x| <= |v| && (forall i :: 0 <= i < |x| ==> a[i] == D[i] && x[i] == v[i])
    requires all == Flat(bt, bl, st, v)
    modifies mem
    ensures Progress(bt, bl, v, all, st', |x|, old(mem[..]), D, mem[..])
  {
    FlatFront(bt, bl, st, v, |x|);
    assert v[..|x|] == x;
    st' := TransformBatch(mem, a, x, bt, bl, st);
    PutPrefix(old(mem[..]), a, Flat(bt, bl, st, x).1, D, all.1, |x|);
  }

  /** Slices of as many whole blocks as both sides have in one. */
  method TakeBatch<I(!new), J(!new)>(dacc: Access<I, nat>, dst: I, sacc: Access<J, byte>, src: J, bl: nat)
    returns (a: Option<seq<nat>>, x: Option<seq<byte>>, d: I, s: J)
    requires IsAccess(dacc) && IsAccess(sacc) && bl > 0 && dacc.len(dst) >= 2 * bl && sacc.len(src) >= 2 * bl
    ensures a.Some? && x.Some? && |a.value| == |x.value| > 0 && |x.value| % bl == 0
    ensures First(dacc, dacc.view(dst), a.value, d) && First(sacc, sacc.view(src), x.value, s)
  {
    var batch := Min(dacc.len(dst), sacc.len(src));
    RoundDown(batch, bl);
    batch := batch - batch % bl;
    var (da, d1) := dacc.next(dst, Some(batch));
    assert Promises(dacc, dst, Some(batch));
    var (sa, s1) := sacc.next(src, Some(batch));
    assert Promises(sacc, src, Some(batch));
    PastStart(dacc, dst);
    Advance(dacc, dacc.view(dst), 0, dst, da.value, d1);
    PastStart(sacc, src);
    Advance(sacc, sacc.view(src), 0, src, sa.value, s1);
    return da, sa, d1, s1;
  }

  method BatchPath<I(!new), J(!new), S(!new)>(
    mem: array<byte>, dacc: Access<I, nat>, dst: I, sacc: Access<J, byte>, src: J,
    bt: Transform<S>, bl: nat, st: S, ghost all: (S, seq<byte>))
    returns (r: Step, d: I, s: J, st': S, ghost n: nat)
    requires IsAccess(dacc) && IsAccess(sacc) && IsTransform(bt, bl) && Within(dacc.view(dst), mem.Length)
    requires dacc.len(dst) >= 2 * bl && sacc.len(src) >= 2 * bl && all == Flat(bt, bl, st, sacc.view(src))
    modifies mem
    ensures r == More && n > 0 && n % bl == 0 && Past(dacc, dacc.view(dst), n, d) && Past(sacc, sacc.view(src), n, s)
    ensures Progress(bt, bl, sacc.view(src), all, st', n, old(mem[..]), dacc.view(dst), mem[..])
  {
    var a, x;
    a, x, d, s := TakeBatch(dacc, dst, sacc, src, bl);
    st', n := st, 0;
    if a.None? || x.None? { return Failed(Internal), d, s, st', n; }
    st' := BatchStep(mem, a.value, x.value, bt, bl, st, dacc.view(dst), sacc.view(src), all);
    return More, d, s, st', |x.value|;
  }

  /** Transforming the first block, padded if it is a partial one. */
  lemma FirstBlock<S(!new)>(bt: Transform<S>, bl: nat, st: S, v: seq<byte>, block: seq<byte>, all: (S, seq<byte>), n: nat)
    requires IsTransform(bt, bl) && v != [] && |block| == bl && all == Flat(bt, bl, st, v) && n == Min(bl, |v|)
    requires forall i :: 0 <= i < bl ==> block[i] == if i < |v| then v[i] else 0
    ensures Reached(bt, bl, v, all, n, bt(st, block).0)
    ensures forall i :: 0 <= i < n ==> bt(st, block).1[i] == all.1[i]
  {
    var (st', o) := bt(st, block);
    if |v| >= bl {
      assert v[..bl] == block;
      var rest := Flat(bt, bl, st', v[bl..]);
      assert all == (rest.0, o + rest.1);
      assert all.1[bl..] == rest.1;
    } else {
      assert v + Zeros(bl - |v|) == block;
      assert v[n..] == [] && all.1[n..] == [] && Flat(bt, bl, st', []) == (st', []);
    }
  }

  lemma BlockProgress<S(!new)>(bt: Transform<S>, bl: nat, v: seq<byte>, all: (S, seq<byte>), st: S, m0: seq<byte>, D: seq<nat>, o: seq<byte>)
    requires IsTransform(bt, bl) && Within(D, |m0|) && |D| == |v| && |o| <= |v| && Reached(bt, bl, v, all, |o|, st)
    requires forall i :: 0 <= i < |o| ==> o[i] == all.1[i]
    ensures Progress(bt, bl, v, all, st, |o|, m0, D, Put(m0, D, o, |o|))
  {
    PutPrefix(m0, D, o, D, all.1, |o|);
  }

  /** A block that is spread over several slices. */
  method ScratchPath<I(!new), J(!new), S(!new)>(
    mem: array<byte>, a: seq<nat>, dacc: Access<I, nat>, dst: I, x: seq<byte>, sacc: Access<J, byte>, src: J,
    bt: Transform<S>, bl: nat, st: S, partialOk: bool, scratch: array<byte>,
    ghost D: seq<nat>, ghost v: seq<byte>, ghost all: (S, seq<byte>))
    returns (r: Step, d: I, s: J, st': S, n: nat)
    requires IsAccess(dacc) && IsAccess(sacc) && IsTransform(bt, bl) && scratch.Length == bl && scratch != mem
    requires Within(D, mem.Length) && First(dacc, D, a, dst) && First(sacc, v, x, src) && |a| <= bl && |x| <= bl
    requires v != [] && all == Flat(bt, bl, st, v)
    modifies mem, scratch
    ensures r == Panicked <==> partialOk && |v| < bl && |a| > |v|
    ensures |D| == |v| && (partialOk || |v| % bl == 0) ==>
      && r == More && n > 0 && (n % bl == 0 || n == |v|) && Past(dacc, D, n, d) && Past(sacc, v, n, s)
      && Progress(bt, bl, v, all, st', n, old(mem[..]), D, mem[..])
  {
    d, st' := dst, st;
    var ok;
    ok, n, s := GatherBlock(scratch, x, sacc, src, partialOk, v);
    ModShift(0, 1, bl);
    if |v| % bl == 0 { MultiplesApart(0, |v|, bl); }
    if !ok || (n == bl && n < |a|) { return Failed(Internal), d, s, st', n; }
    FirstBlock(bt, bl, st, v, scratch[..], all, n);
    var (next, o) := bt(st, scratch[..]);
    forall i | 0 <= i < bl { scratch[i] := o[i]; }
    st' := next;
    if |a| > n {
      WriteSlice(mem, a, o[..|a|], mem[..], D, o, 0);
      return Panicked, d, s, st', n;
    }
    var k;
    assert mem[..] == old(mem[..]);
    k, d := ScatterFirst(mem, a, dacc, dst, o[..n], D);
    if |D| == |v| { BlockProgress(bt, bl, v, all, st', old(mem[..]), D, o[..n]); }
    return if k != n then Failed(Internal) else More, d, s, st', n;
  }

  /** The result of a call that took the slices `a` and `x` for the next block. */
  method BlockPath<I(!new), J(!new), S(!new)>(
    mem: array<byte>, a: seq<nat>, dacc: Access<I, nat>, dst: I, x: seq<byte>, sacc: Access<J, byte>, src: J,
    bt: Transform<S>, bl: nat, st: S, partialOk: bool, scratch: array<byte>,
    ghost D: seq<nat>, ghost v: seq<byte>, ghost all: (S, seq<byte>))
    returns (r: Step, d: I, s: J, st': S, ghost n: nat)
    requires IsAccess(dacc) && IsAccess(sacc) && IsTransform(bt, bl) && scratch.Length == bl && scratch != mem
    requires Within(D, mem.Length) && First(dacc, D, a, dst) && First(sacc, v, x, src) && |a| <= bl && |x| <= bl
    requires v != [] && all == Flat(bt, bl, st, v)
    modifies mem, scratch
    ensures r == Panicked <==> partialOk && |v| < bl && |a| > |v|
    ensures |D| == |v| && (partialOk || |v| % bl == 0) ==>
      && r == More && n > 0 && (n % bl == 0 || n == |v|) && Past(dacc, D, n, d) && Past(sacc, v, n, s)
      && Progress(bt, bl, v, all, st', n, old(mem[..]), D, mem[..])
  {
    if |a| == bl && |x| == bl {
      ModShift(0, 1, bl);
      d, s, n, r := dst, src, bl, More;
      st' := BatchStep(mem, a, x, bt, bl, st, D, v, all);
    } else {
      r, d, s, st', n := ScratchPath(mem, a, dacc, dst, x, sacc, src, bt, bl, st, partialOk, scratch, D, v, all);
    }
  }

  /** The next block, if there is no batch of several. */
  method SinglePath<I(!new), J(!new), S(!new)>(
    mem: array<byte>, dacc: Access<I, nat>, dst: I, sacc: Access<J, byte>, src: J,
    bt: Transform<S>, bl: nat, st: S, partialOk: bool, scratch: array<byte>, ghost all: (S, seq<byte>))
    returns (r: Step, d: I, s: J, st': S, ghost n: nat)
    requires IsAccess(dacc) && IsAccess(sacc) && IsTransform(bt, bl) && scratch.Length == bl && scratch != mem
    requires Within(dacc.view(dst), mem.Length) && all == Flat(bt, bl, st, sacc.view(src))
    modifies mem, scratch
    ensures r == Panicked <==> OutOfRange(dacc, dst, sacc, src, bl, partialOk)
    ensures Matching(dacc, dst, sacc, src, bl, partialOk) ==>
      && r == (if sacc.view(src) == [] then Done else More) && (n == 0 <==> r == Done)
      && (n % bl == 0 || n == |sacc.view(src)|)
      && Past(dacc, dacc.view(dst), n, d) && Past(sacc, sacc.view(src), n, s)
      && Progress(bt, bl, sacc.view(src), all, st', n, old(mem[..]), dacc.view(dst), mem[..])
  {
    d, s, st', n := dst, src, st, 0;
    ghost var D, v := dacc.view(dst), sacc.view(src);
    var (da, d1) := dacc.next(dst, Some(bl));
    assert Promises(dacc, dst, Some(bl));
    if da.None? {
      NothingProgress(bt, bl, st, v, all, mem[..], D);
      PastStart(dacc, dst);
      PastStart(sacc, src);
      return if sacc.isEmpty(src) then Done else Failed(Internal), d1, s, st', 0;
    }
    var (sa, s1) := sacc.next(src, Some(bl));
    assert Promises(sacc, src, Some(bl));
    if sa.None? { return Failed(Internal), d1, s1, st', 0; }
    PastStart(dacc, dst);
    Advance(dacc, D, 0, dst, da.value, d1);
    PastStart(sacc, src);
    Advance(sacc, v, 0, src, sa.value, s1);
    r, d, s, st', n := BlockPath(mem, da.value, dacc, d1, sa.value, sacc, s1, bt, bl, st, partialOk, scratch, D, v, all);
  }

  lemma NothingProgress<S(!new)>(bt: Transform<S>, bl: nat, st: S, v: seq<byte>, all: (S, seq<byte>), m0: seq<byte>, D: seq<nat>)
    requires IsTransform(bt, bl) && Within(D, |m0|) && all == Flat(bt, bl, st, v)
    ensures v == [] ==> Progress(bt, bl, v, all, st, 0, m0, D, m0)
  {
  }

  /** A reported length is there. */
  lemma LenIsLeft<J(!new)>(sacc: Access<J, byte>, src: J)
    requires IsAccess(sacc)
    ensures sacc.len(src) <= |sacc.view(src)|
  {
    var _ := sacc.next(src, None);
    assert Promises(sacc, src, None);
  }

  /** `transform_next_blocks`. If both sides match, it makes progress until there is
      nothing left, and what it writes is the flat transform of what it consumes. */
  method TransformNextBlocks<I(!new), J(!new), S(!new)>(
    mem: array<byte>, dacc: Access<I, nat>, dst: I, sacc: Access<J, byte>, src: J,
    bt: Transform<S>, bl: nat, st: S, partialOk: bool, scratch: array<byte>, ghost all: (S, seq<byte>))
    returns (r: Step, d: I, s: J, st': S, ghost n: nat)
    requires IsAccess(dacc) && IsAccess(sacc) && IsTransform(bt, bl) && scratch.Length == bl && scratch != mem
    requires Within(dacc.view(dst), mem.Length) && all == Flat(bt, bl, st, sacc.view(src))
    modifies mem, scratch
    ensures r == Panicked <==> OutOfRange(dacc, dst, sacc, src, bl, partialOk)
    ensures Matching(dacc, dst, sacc, src, bl, partialOk) ==>
      && r == (if sacc.view(src) == [] then Done else More) && (n == 0 <==> r == Done)
      && (n % bl == 0 || n == |sacc.view(src)|)
      && Past(dacc, dacc.view(dst), n, d) && Past(sacc, sacc.view(src), n, s)
      && Progress(bt, bl, sacc.view(src), all, st', n, old(mem[..]), dacc.view(dst), mem[..])
  {
    if dacc.len(dst) >= 2 * bl && sacc.len(src) >= 2 * bl {
      LenIsLeft(sacc, src);
      r, d, s, st', n := BatchPath(mem, dacc, dst, sacc, src, bt, bl, st, all);
    } else {
      r, d, s, st', n := SinglePath(mem, dacc, dst, sacc, src, bt, bl, st, partialOk, scratch, all);
    }
  }

  // ---- whole messages ----

  /** Progress on the rest of a message is progress on the message. */
  lemma ProgressOn<S(!new)>(bt: Transform<S>, bl: nat, v: seq<byte>, all: (S, seq<byte>), k: nat, st: S, n: nat,
                            m0: seq<byte>, D: seq<nat>, m1: seq<byte>, m: seq<byte>)
    requires IsTransform(bt, bl) && Within(D, |m0|) && k <= |v| == |D| == |all.1|
    requires m1 == Put(m0, D, all.1, k) && Within(D[k..], |m1|)
    requires Progress(bt, bl, v[k..], (all.0, all.1[k..]), st, n, m1, D[k..], m)
    ensures Progress(bt, bl, v, all, st, k + n, m0, D, m)
  {
    PutOn(m0, D, all.1, k, n);
    assert v[k..][n..] == v[k + n..] && all.1[k..][n..] == all.1[k + n..];
  }

  /** The mode transforms of crypto/src/pure_rust/symcipher/mod.rs: check the
      lengths, then call `transform_next_blocks` until nothing is left. Whatever the
      slicing of both sides, this is the flat transform. */
  method TransformMessage<I(!new), J(!new), S(!new)>(
    mem: array<byte>, dacc: Access<I, nat>, dst: I, sacc: Access<J, byte>, src: J,
    bt: Transform<S>, bl: nat, st: S, partialOk: bool, wantIv: bool)
    returns (r: Result<S>)
    requires IsAccess(dacc) && IsAccess(sacc) && IsTransform(bt, bl) && Within(dacc.view(dst), mem.Length)
    modifies mem
    ensures r.Ok? <==>
      && |dacc.view(dst)| == |sacc.view(src)|
      && (|dacc.view(dst)| % bl == 0 || (partialOk && !wantIv))
    ensures r == Err(InvalidMessageLength) <==> |dacc.view(dst)| % bl != 0 && !partialOk
    ensures r.Err? ==> mem[..] == old(mem[..])
    ensures r.Ok? ==>
      var (fin, out) := Flat(bt, bl, st, sacc.view(src));
      r.value == fin && mem[..] == Put(old(mem[..]), dacc.view(dst), out, |out|)
  {
    ghost var D, v, m0 := dacc.view(dst), sacc.view(src), mem[..];
    var len := |dacc.view(dst)|;
    if len % bl != 0 && !partialOk { return Err(InvalidMessageLength); }
    if len % bl != 0 && wantIv { return Err(Internal); }
    if |sacc.view(src)| != len { return Err(Internal); }
    ghost var all := Flat(bt, bl, st, v);
    assert v[0..] == v && all.1[0..] == all.1;
    PastStart(dacc, dst);
    PastStart(sacc, src);
    var scratch := new byte[bl](_ => 0);
    var d, s, cur, step := dst, src, st, More;
    ghost var k := 0;
    while step == More
      invariant step == More || step == Done
      invariant Past(dacc, D, k, d) && Past(sacc, v, k, s) && Progress(bt, bl, v, all, cur, k, m0, D, mem[..])
      invariant Whole(|v| - k, bl, partialOk)
      invariant step == Done ==> k == |v|
      decreases |v| - k, step == More
    {
      ghost var n;
      step, d, s, cur, n := NextOfMessage(mem, dacc, d, sacc, s, bt, bl, cur, partialOk, scratch, D, v, all, k, m0);
      k := k + n;
    }
    assert v[k..] == [] && Flat(bt, bl, cur, []) == (cur, []);
    return Ok(cur);
  }

  ghost predicate Whole(n: int, bl: nat, partialOk: bool) requires bl > 0 { partialOk || n % bl == 0 }

  lemma WholeRest(len: nat, n: nat, bl: nat, partialOk: bool)
    requires bl > 0 && n <= len && Whole(len, bl, partialOk) && (n % bl == 0 || n == len)
    ensures Whole(len - n, bl, partialOk)
  {
    if !partialOk { SameRemainder(n, len, bl); }
  }

  method NextOfMessage<I(!new), J(!new), S(!new)>(
    mem: array<byte>, dacc: Access<I, nat>, dst: I, sacc: Access<J, byte>, src: J,
    bt: Transform<S>, bl: nat, st: S, partialOk: bool, scratch: array<byte>,
    ghost D: seq<nat>, ghost v: seq<byte>, ghost all: (S, seq<byte>), ghost k: nat, ghost m0: seq<byte>)
    returns (r: Step, d: I, s: J, st': S, ghost n: nat)
    requires IsAccess(dacc) && IsAccess(sacc) && IsTransform(bt, bl) && scratch.Length == bl && scratch != mem
    requires Within(D, |m0|) && |D| == |v| == |all.1| && Past(dacc, D, k, dst) && Past(sacc, v, k, src)
    requires Progress(bt, bl, v, all, st, k, m0, D, mem[..]) && Whole(|v| - k, bl, partialOk)
    modifies mem, scratch
    ensures r == (if k == |v| then Done else More) && (n == 0 <==> r == Done)
    ensures Past(dacc, D, k + n, d) && Past(sacc, v, k + n, s) && Progress(bt, bl, v, all, st', k + n, m0, D, mem[..])
    ensures Whole(|v| - (k + n), bl, partialOk)
  {
    ghost var rest := (all.0, all.1[k..]);
    ghost var m1 := mem[..];
    PastIs(dacc, D, k, dst);
    PastIs(sacc, v, k, src);
    assert Flat(bt, bl, st, v[k..]) == rest;
    r, d, s, st', n := TransformNextBlocks(mem, dacc, dst, sacc, src, bt, bl, st, partialOk, scratch, rest);
    ProgressOn(bt, bl, v, all, k, st', n, m0, D, m1, mem[..]);
    PastTwice(dacc, D, k, dst, n, d);
    PastTwice(sacc, v, k, src, n, s);
    WholeRest(|v| - k, n, bl, partialOk);
  }
}
