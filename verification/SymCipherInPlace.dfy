/** The block transforms that work in place (crypto/src/symcipher.rs). */
module SymCipherInPlace {
  import opened Arith
  import opened Results
  import opened Bytes
  import opened IoSlices
  import opened SliceMemory
  import opened SliceAccess
  import opened IoSliceOps
  import opened SymCipher

  /** Reading through a writable iterator, as a decoupled borrow of it does. */
  function Reading<I>(acc: Access<I, nat>, m: seq<byte>): Access<I, byte> {
    Access(acc.len, acc.isEmpty, (it: I, max: Option<nat>) => ReadNext(acc, m, it, max),
           (it: I) => Load(m, acc.view(it)), acc.links)
  }
  function ReadNext<I>(acc: Access<I, nat>, m: seq<byte>, it: I, max: Option<nat>): (Option<seq<byte>>, I) {
    var (s, rest) := acc.next(it, max);
    (if s.Some? then Some(Load(m, s.value)) else None, rest)
  }

  lemma ReadingKeepsPromises<I(!new)>(acc: Access<I, nat>, m: seq<byte>)
    requires IsAccess(acc)
    ensures IsAccess(Reading(acc, m))
  {
    var r := Reading(acc, m);
    forall it, max ensures Promises(r, it, max) {
      var (s, rest) := acc.next(it, max);
      assert Promises(acc, it, max);
      LoadConcat(m, Slot(s), acc.view(rest));
      assert Load(m, []) == [];
    }
    forall it | r.view(it) == [] ensures r.isEmpty(it) { assert acc.view(it) == []; assert acc.isEmpty(it); }
  }

  /** What lies beyond the part written so far still reads as before. */
  lemma ReadsOriginal(m0: seq<byte>, D: seq<nat>, x: seq<byte>, pos: nat, part: seq<nat>)
    requires Within(D, |m0|) && Distinct(D) && pos <= |x| && pos + |part| <= |D|
    requires forall i :: 0 <= i < |part| ==> part[i] == D[pos + i]
    ensures Load(Put(m0, D, x, pos), part) == Load(m0, D)[pos..pos + |part|]
  {
    forall i | 0 <= i < |part| ensures Load(Put(m0, D, x, pos), part)[i] == Load(m0, D)[pos + i] {
      LoadBeyond(m0, D, x, pos, pos + i);
    }
  }

  /** One block in place: it is read before any byte of it is overwritten. */
  method BlockInPlace<S(!new)>(mem: array<byte>, part: seq<nat>, bt: Transform<S>, bl: nat, st: S,
                               ghost m0: seq<byte>, ghost D: seq<nat>, ghost all: (S, seq<byte>), ghost pos: nat)
    returns (st': S)
    requires IsTransform(bt, bl) && Within(D, |m0|) && Distinct(D) && |part| == bl && pos + bl <= |D|
    requires forall i :: 0 <= i < bl ==> part[i] == D[pos + i]
    requires Progress(bt, bl, Load(m0, D), all, st, pos, m0, D, mem[..])
    modifies mem
    ensures Progress(bt, bl, Load(m0, D), all, st', pos + bl, m0, D, mem[..])
  {
    ReadsOriginal(m0, D, all.1, pos, part);
    var block := Load(mem[..], part);
    assert block == Load(m0, D)[pos..pos + bl];
    ReachBlock(bt, bl, Load(m0, D), all, pos, st, block);
    var (next, o) := bt(st, block);
    WriteSlice(mem, part, o, m0, D, all.1, pos);
    st' := next;
  }

  /** A batch of whole blocks within one slice. */
  method TransformBatchInPlace<S(!new)>(mem: array<byte>, a: seq<nat>, bt: Transform<S>, bl: nat, st: S,
                                        ghost D: seq<nat>, ghost all: (S, seq<byte>))
    returns (st': S)
    requires IsTransform(bt, bl) && Within(D, mem.Length) && Distinct(D) && |a| % bl == 0
    requires |a| <= |D| && (forall i :: 0 <= i < |a| ==> a[i] == D[i])
    requires all == Flat(bt, bl, st, Load(mem[..], D))
    modifies mem
    ensures Progress(bt, bl, Load(old(mem[..]), D), all, st', |a|, old(mem[..]), D, mem[..])
  {
    ghost var m0 := mem[..];
    ghost var v := Load(m0, D);
    assert v[0..] == v && all.1[0..] == all.1;
    st' := st;
    var pos := 0;
    while pos != |a|
      invariant 0 <= pos <= |a| && pos % bl == 0
      invariant Progress(bt, bl, v, all, st', pos, m0, D, mem[..])
      decreases |a| - pos
    {
      MultiplesApart(pos, |a|, bl);
      st' := BlockInPlace(mem, a[pos..pos + bl], bt, bl, st', m0, D, all, pos);
      pos := pos + bl;
    }
  }

  /** A block that is spread over several slices. */
  method ScratchInPlace<I(!new), S(!new)>(
    mem: array<byte>, a: seq<nat>, dacc: Access<I, nat>, dst: I,
    bt: Transform<S>, bl: nat, st: S, partialOk: bool, scratch: array<byte>, ghost D: seq<nat>, ghost all: (S, seq<byte>))
    returns (ok: bool, d: I, st': S, n: nat)
    requires IsAccess(dacc) && IsTransform(bt, bl) && scratch.Length == bl && scratch != mem
    requires Within(D, mem.Length) && Distinct(D) && First(dacc, D, a, dst) && |a| <= bl && D != []
    requires all == Flat(bt, bl, st, Load(mem[..], D))
    modifies mem, scratch
    ensures ok <==> partialOk || |D| >= bl
    ensures ok ==>
      && n == Min(bl, |D|) && Past(dacc, D, n, d)
      && Progress(bt, bl, Load(old(mem[..]), D), all, st', n, old(mem[..]), D, mem[..])
  {
    d, st' := dst, st;
    ghost var v := Load(mem[..], D);
    var reading := Reading(dacc, mem[..]);
    ReadingKeepsPromises(dacc, mem[..]);
    assert First(reading, v, Load(mem[..], a), dst) by { ReadingFirst(dacc, mem[..], D, a, dst); }
    var s;
    ok, n, s := GatherBlock(scratch, Load(mem[..], a), reading, dst, partialOk, v);
    if !ok { return; }
    FirstBlock(bt, bl, st, v, scratch[..], all, n);
    var (next, o) := bt(st, scratch[..]);
    forall i | 0 <= i < bl { scratch[i] := o[i]; }
    st' := next;
    assert mem[..] == old(mem[..]);
    ghost var gathered := n;
    n, d := ScatterFirst(mem, a, dacc, dst, o, D);
    assert n == gathered;
    PutPrefix(old(mem[..]), D, o, D, all.1, n);
  }

  lemma ReadingFirst<I>(dacc: Access<I, nat>, m: seq<byte>, D: seq<nat>, a: seq<nat>, dst: I)
    requires First(dacc, D, a, dst)
    ensures First(Reading(dacc, m), Load(m, D), Load(m, a), dst)
  {
    PastIs(dacc, D, |a|, dst);
    PastIs(Reading(dacc, m), Load(m, D), |a|, dst);
    assert Load(m, D)[|a|..] == Load(m, D[|a|..]);
  }

  method BatchInPlace<I(!new), S(!new)>(
    mem: array<byte>, dacc: Access<I, nat>, dst: I, bt: Transform<S>, bl: nat, st: S, ghost all: (S, seq<byte>))
    returns (r: Step, d: I, st': S, ghost n: nat)
    requires IsAccess(dacc) && IsTransform(bt, bl) && dacc.len(dst) >= 2 * bl
    requires Within(dacc.view(dst), mem.Length) && Distinct(dacc.view(dst))
    requires all == Flat(bt, bl, st, Load(mem[..], dacc.view(dst)))
    modifies mem
    ensures r == More && n > 0 && n % bl == 0 && Past(dacc, dacc.view(dst), n, d)
    ensures Progress(bt, bl, Load(old(mem[..]), dacc.view(dst)), all, st', n, old(mem[..]), dacc.view(dst), mem[..])
  {
    var len := dacc.len(dst);
    RoundDown(len, bl);
    var batch := len - len % bl;
    var (da, d1) := dacc.next(dst, Some(batch));
    assert Promises(dacc, dst, Some(batch));
    d, st', n := d1, st, 0;
    if da.None? { return Failed(Internal), d, st', n; }
    PastStart(dacc, dst);
    Advance(dacc, dacc.view(dst), 0, dst, da.value, d1);
    st' := TransformBatchInPlace(mem, da.value, bt, bl, st, dacc.view(dst), all);
    return More, d1, st', batch;
  }

  /** `transform_next_blocks_in_place`: fails only for a partial block where none is
      allowed, and otherwise makes progress until nothing is left. */
  method TransformNextBlocksInPlace<I(!new), S(!new)>(
    mem: array<byte>, dacc: Access<I, nat>, dst: I,
    bt: Transform<S>, bl: nat, st: S, partialOk: bool, scratch: array<byte>, ghost all: (S, seq<byte>))
    returns (r: Step, d: I, st': S, ghost n: nat)
    requires IsAccess(dacc) && IsTransform(bt, bl) && scratch.Length == bl && scratch != mem
    requires Within(dacc.view(dst), mem.Length) && Distinct(dacc.view(dst))
    requires all == Flat(bt, bl, st, Load(mem[..], dacc.view(dst)))
    modifies mem, scratch
    ensures r == More || r == Done || r == Failed(Internal)
    ensures r == Done <==> dacc.view(dst) == []
    ensures r.Failed? ==> !partialOk && 0 < |dacc.view(dst)| < bl
    ensures !r.Failed? ==>
      && (n == 0 <==> r == Done) && (n % bl == 0 || n == |dacc.view(dst)|) && Past(dacc, dacc.view(dst), n, d)
      && Progress(bt, bl, Load(old(mem[..]), dacc.view(dst)), all, st', n, old(mem[..]), dacc.view(dst), mem[..])
  {
    d, st', n := dst, st, 0;
    ghost var D := dacc.view(dst);
    var len := dacc.len(dst);
    if len >= 2 * bl {
      r, d, st', n := BatchInPlace(mem, dacc, dst, bt, bl, st, all);
      return;
    }
    ModShift(0, 1, bl);
    var (da, d1) := dacc.next(dst, Some(bl));
    assert Promises(dacc, dst, Some(bl));
    if da.None? { return Done, d1, st', 0; }
    PastStart(dacc, dst);
    Advance(dacc, D, 0, dst, da.value, d1);
    if |da.value| == bl {
      st' := TransformBatchInPlace(mem, da.value, bt, bl, st, D, all);
      return More, d1, st', bl;
    }
    var ok;
    ok, d, st', n := ScratchInPlace(mem, da.value, dacc, d1, bt, bl, st, partialOk, scratch, D, all);
    r := if ok then More else Failed(Internal);
  }

  /** The whole message in place: the same bytes and final state as from a separate
      source. */
  method TransformMessageInPlace<I(!new), S(!new)>(
    mem: array<byte>, dacc: Access<I, nat>, dst: I, bt: Transform<S>, bl: nat, st: S, partialOk: bool, wantIv: bool)
    returns (r: Result<S>)
    requires IsAccess(dacc) && IsTransform(bt, bl) && Within(dacc.view(dst), mem.Length) && Distinct(dacc.view(dst))
    modifies mem
    ensures r.Ok? <==> |dacc.view(dst)| % bl == 0 || (partialOk && !wantIv)
    ensures r == Err(InvalidMessageLength) <==> |dacc.view(dst)| % bl != 0 && !partialOk
    ensures r.Err? ==> mem[..] == old(mem[..])
    ensures r.Ok? ==>
      var (fin, out) := Flat(bt, bl, st, Load(old(mem[..]), dacc.view(dst)));
      r.value == fin && mem[..] == Put(old(mem[..]), dacc.view(dst), out, |out|)
  {
    ghost var D, m0 := dacc.view(dst), mem[..];
    ghost var v := Load(m0, D);
    var len := |dacc.view(dst)|;
    if len % bl != 0 && !partialOk { return Err(InvalidMessageLength); }
    if len % bl != 0 && wantIv { return Err(Internal); }
    ghost var all := Flat(bt, bl, st, v);
    assert v[0..] == v && all.1[0..] == all.1;
    PastStart(dacc, dst);
    var scratch := new byte[bl](_ => 0);
    var d, cur, step := dst, st, More;
    ghost var k := 0;
    while step == More
      invariant step == More || step == Done
      invariant Past(dacc, D, k, d) && Progress(bt, bl, v, all, cur, k, m0, D, mem[..])
      invariant Whole(|v| - k, bl, partialOk)
      invariant step == Done ==> k == |v|
      decreases |v| - k, step == More
    {
      ghost var n;
      step, d, cur, n := NextInPlace(mem, dacc, d, bt, bl, cur, partialOk, scratch, D, all, k, m0);
      k := k + n;
    }
    assert v[k..] == [] && Flat(bt, bl, cur, []) == (cur, []);
    return Ok(cur);
  }

  /** The rest of the message still reads as it did. */
  lemma RestReads(m0: seq<byte>, D: seq<nat>, x: seq<byte>, k: nat)
    requires Within(D, |m0|) && Distinct(D) && k <= |x| && k <= |D|
    ensures Load(Put(m0, D, x, k), D[k..]) == Load(m0, D)[k..]
  {
    ReadsOriginal(m0, D, x, k, D[k..]);
  }

  lemma RestOfMessage<S(!new)>(bt: Transform<S>, bl: nat, st: S, m0: seq<byte>, D: seq<nat>, all: (S, seq<byte>), k: nat, m1: seq<byte>)
    requires IsTransform(bt, bl) && Within(D, |m0|) && Distinct(D) && |D| == |all.1|
    requires Progress(bt, bl, Load(m0, D), all, st, k, m0, D, m1)
    ensures Within(D[k..], |m1|) && Distinct(D[k..])
    ensures Load(m1, D[k..]) == Load(m0, D)[k..] && Flat(bt, bl, st, Load(m1, D[k..])) == (all.0, all.1[k..])
  {
    RestReads(m0, D, all.1, k);
    DistinctPart(D, k, |D|);
    assert D[k..|D|] == D[k..];
  }

  method NextInPlace<I(!new), S(!new)>(
    mem: array<byte>, dacc: Access<I, nat>, dst: I, bt: Transform<S>, bl: nat, st: S, partialOk: bool, scratch: array<byte>,
    ghost D: seq<nat>, ghost all: (S, seq<byte>), ghost k: nat, ghost m0: seq<byte>)
    returns (r: Step, d: I, st': S, ghost n: nat)
    requires IsAccess(dacc) && IsTransform(bt, bl) && scratch.Length == bl && scratch != mem
    requires Within(D, |m0|) && Distinct(D) && |D| == |all.1| && Past(dacc, D, k, dst)
    requires Progress(bt, bl, Load(m0, D), all, st, k, m0, D, mem[..]) && Whole(|D| - k, bl, partialOk)
    modifies mem, scratch
    ensures r == (if k == |D| then Done else More) && (n == 0 <==> r == Done)
    ensures Past(dacc, D, k + n, d) && Progress(bt, bl, Load(m0, D), all, st', k + n, m0, D, mem[..])
    ensures Whole(|D| - (k + n), bl, partialOk)
  {
    ghost var v := Load(m0, D);
    ghost var m1 := mem[..];
    PastIs(dacc, D, k, dst);
    RestOfMessage(bt, bl, st, m0, D, all, k, m1);
    if 0 < |D| - k < bl { ModSmall(|D| - k, bl); }
    r, d, st', n := TransformNextBlocksInPlace(mem, dacc, dst, bt, bl, st, partialOk, scratch, (all.0, all.1[k..]));
    ProgressOn(bt, bl, v, all, k, st', n, m0, D, m1, mem[..]);
    PastTwice(dacc, D, k, dst, n, d);
    WholeRest(|D| - k, n, bl, partialOk);
  }
}
