/** The Hash_DRBG writing to a destination that it reaches through a mutable reference
    (crypto/src/rng/hash_drbg.rs, utils-common/src/io_slices.rs): exactly where it
    stops. */
module DrbgByReference {
  import opened Arith
  import opened Results
  import opened Bytes
  import opened IoSlices
  import opened SliceMemory
  import opened SliceAccess
  import opened Layouts
  import opened HashDrbg
  import opened DrbgGenerate

  /** With so many bytes left, the digest before them is the last piece of an iterator of
      the chain, all in one slice; or nothing is written yet and the first iterator has
      none. */
  ghost function DigestStops(dst: Iter<nat>, dl: nat): nat -> bool {
    (left: nat) => left <= |View(dst)| && EndsWith(LayoutOf(dst), |View(dst)| - left, dl)
  }

  /** A digest that went over several slices is not the last piece of an iterator in one
      slice. */
  lemma NotInOne(dst: SliceIter<nat>, e: SliceIter<nat>, dl: nat, n: nat)
    requires Reachable(ByRef(Iters<nat>()), dst, e) && dl > 0 && n >= dl && |View(e)| == |View(dst)| - n + dl > 0
    requires |Slot(NextSlice(e, Some(dl)).slice)| < dl
    ensures !EndsWith(LayoutOf(dst), n, dl)
  {
    ReachableAt(dst, e);
    FirstNotEmpty(e);
    DropNothing(LayoutOf(e));
    TakesFollow(e, Some(dl));
  }

  lemma StopAt(dst: SliceIter<nat>, dl: nat, d: SliceIter<nat>, n: nat)
    requires dl > 0 && View(d) != [] && n + |View(d)| == |View(dst)|
    requires AfterDigest(ByRef(Iters<nat>()), dst, dl, d)
    ensures NextSliceLen(d) == 0 <==> EndsWith(LayoutOf(dst), n, dl)
  {
    var acc := ByRef(Iters<nat>());
    if d == dst {
      EmptyAtOnce(dst, dl);
    } else {
      var e: SliceIter<nat> :| DeliveredFrom(acc, dst, e, d, dl);
      assert DeliveredFrom(acc, dst, e, d, dl);
      ReachableAt(dst, e);
      assert acc.next(e, Some(dl)) == IterNext(e, Some(dl));
      if |Slot(acc.next(e, Some(dl)).0)| == dl {
        assert TakenFrom(dst, e, dl, d, n);
        EmptyAfterTake(dst, e, dl, d, n);
      } else {
        NextSliceLength(e, Some(dl));
        NotInOne(dst, e, dl, n);
      }
    }
  }

  lemma NoLonger(dst: SliceIter<nat>, dl: nat, d: SliceIter<nat>)
    requires View(d) != [] && AfterDigest(ByRef(Iters<nat>()), dst, dl, d)
    ensures |View(d)| <= |View(dst)|
  {
    if d != dst {
      var acc := ByRef(Iters<nat>());
      var e: SliceIter<nat> :| DeliveredFrom(acc, dst, e, d, dl);
      assert DeliveredFrom(acc, dst, e, d, dl);
      ReachableAt(dst, e);
    }
  }

  lemma DigestsPredict(dst: SliceIter<nat>, dl: nat)
    requires dl > 0
    ensures Predicts(ByRef(Iters<nat>()), dst, dl, DigestStops(dst, dl))
  {
    var acc := ByRef(Iters<nat>());
    forall d: SliceIter<nat> | View(d) != [] && AfterDigest(acc, dst, dl, d)
      ensures |View(d)| <= |View(dst)| && (NextSliceLen(d) == 0 <==> EndsWith(LayoutOf(dst), |View(dst)| - |View(d)|, dl))
    {
      NoLonger(dst, dl, d);
      StopAt(dst, dl, d, |View(dst)| - |View(d)|);
    }
  }

  /** Filling any destination through a reference: unless a reseed is required, it goes
      on to the first end of a request where the destination passes for empty. */
  method FillThroughReference<A(!new)>(rng: HashDrbgRng, mem: array<byte>, dst: SliceIter<nat>, input: Input<A>)
    returns (r: Result<()>, ghost left: nat)
    requires InputOk(input) && rng.Valid() && Within(View(dst), mem.Length)
    modifies rng, mem
    ensures left <= |View(dst)|
    ensures var out := Requests(rng.p, old(rng.Snap()), Extra(input), |View(dst)|).0;
            |View(dst)| - left <= |out| && mem[..] == Put(old(mem[..]), View(dst), out, |View(dst)| - left)
    ensures r.Err? ==> r.error == ReseedRequired
    ensures r.Ok? ==> left == StopsWith(|View(dst)|, DigestStops(dst, rng.p.dl), rng.p.dl)
  {
    ItersKeepPromises<nat>();
    ByRefKeepsPromises(Iters<nat>());
    DigestsPredict(dst, rng.p.dl);
    var acc := ByRef(Iters<nat>());
    assert acc.view(dst) == View(dst);
    var d;
    ghost var j;
    r, d, j := FillPredicted(rng, mem, acc, dst, input, DigestStops(dst, rng.p.dl));
    left := |View(dst)| - j;
  }

  /** So if it stops before the end, then after so many requests. */
  lemma {:induction false} StopsAfter(left: nat, stops: nat -> bool, dl: nat) returns (q: nat, n: nat)
    requires 0 < dl <= 64 && StopsWith(left, stops, dl) > 0
    ensures n == q * MaxLen(dl) && n < left && StopsWith(left, stops, dl) == left - n && stops(left - n)
    decreases left
  {
    var m := MaxLen(dl);
    if stops(left) {
      q, n := 0, 0;
    } else {
      q, n := StopsAfter(left - Min(m, left), stops, dl);
      MulDistributes(m, q, 1);
      q, n := q + 1, n + m;
    }
  }

  /** And it does so after the first requests where the destination passes for empty. */
  lemma {:induction false} StopsFirst(left: nat, stops: nat -> bool, dl: nat, q: nat, n: nat)
    requires 0 < dl <= 64 && n == q * MaxLen(dl) && n < left && stops(left - n)
    ensures StopsWith(left, stops, dl) >= left - n
    decreases q
  {
    var m := MaxLen(dl);
    if q > 0 && !stops(left) {
      MulAtLeast(m, q);
      MulDistributes(m, q - 1, 1);
      StopsFirst(left - m, stops, dl, q - 1, n - m);
    }
  }

  // ---- two slices ----

  function TwoSlices(x: seq<nat>, y: seq<nat>): (it: Iter<nat>)
    ensures Valid(it) && View(it) == x + y
  {
    var a, b := Singleton(Some(x)), Singleton(Some(y));
    assert View(a) == x && View(b) == y;
    Chain(Some(a), Some(b))
  }

  lemma TwoLayout(x: seq<nat>, y: seq<nat>)
    ensures LayoutOf(TwoSlices(x, y)) == [if x == [] then [] else [x]] + [if y == [] then [] else [y]]
  {
    var a, b := Singleton(Some(x)), Singleton(Some(y));
    assert LayoutOf(a) == [Walk(a)] && LayoutOf(b) == [Walk(b)];
  }

  /** The only place is between them. */
  lemma BetweenSlices(x: seq<nat>, y: seq<nat>, j: nat, dl: nat)
    requires dl > 0 && j < |x| + |y| && (j == 0 || j >= dl)
    ensures EndsWith(LayoutOf(TwoSlices(x, y)), j, dl) <==> j == |x|
  {
    TwoLayout(x, y);
    var l := LayoutOf(TwoSlices(x, y));
    var r: Layout<nat> := [if y == [] then [] else [y]];
    assert l[1..] == r;
    if j > 0 {
      var n := j - dl;
      if n < |x| {
        assert DropFrom(l, n)[0] == [x[n..]];
      } else {
        var k := n - |x|;
        if x != [] { assert l[0][1..] == [] && DropFrom(l, n) == DropFrom([[]] + r, k) && ([[]] + r)[1..] == r; }
        assert DropFrom(l, n) == DropFrom(r, k);
        assert k < |y| && DropFrom(r, k)[0] == [y[k..]];
      }
    }
  }

  lemma StopPoint(x: seq<nat>, y: seq<nat>, dl: nat, q: nat, j: nat)
    requires 0 < dl <= 64 && j == q * MaxLen(dl) && j < |x| + |y|
    ensures DigestStops(TwoSlices(x, y), dl)(|x| + |y| - j) <==> j == |x|
  {
    RoundDown(MAX_REQUEST_LEN, dl);
    if q > 0 { MulAtLeast(MaxLen(dl), q); }
    BetweenSlices(x, y, j, dl);
  }

  lemma StopsOnlyThere(x: seq<nat>, y: seq<nat>, dl: nat)
    requires 0 < dl <= 64 && StopsWith(|x| + |y|, DigestStops(TwoSlices(x, y), dl), dl) > 0
    ensures MaxLen(dl) > 0 && |x| % MaxLen(dl) == 0
    ensures StopsWith(|x| + |y|, DigestStops(TwoSlices(x, y), dl), dl) == |y|
  {
    MaxLenPositive(dl);
    var q, n := StopsAfter(|x| + |y|, DigestStops(TwoSlices(x, y), dl), dl);
    StopIs(x, y, dl, q, n, MaxLen(dl));
  }

  lemma StopIs(x: seq<nat>, y: seq<nat>, dl: nat, q: nat, j: nat, m: nat)
    requires 0 < dl <= 64 && m == MaxLen(dl) > 0 && j == q * m && j < |x| + |y|
    requires DigestStops(TwoSlices(x, y), dl)(|x| + |y| - j)
    ensures j == |x| && |x| % m == 0
  {
    StopPoint(x, y, dl, q, j);
    DivModUnique(j, m, q, 0);
  }

  lemma StopsThere(x: seq<nat>, y: seq<nat>, dl: nat)
    requires 0 < dl <= 64 && y != [] && MaxLen(dl) > 0 && |x| % MaxLen(dl) == 0
    ensures StopsWith(|x| + |y|, DigestStops(TwoSlices(x, y), dl), dl) > 0
  {
    var q := |x| / MaxLen(dl);
    WholeQuotient(|x|, MaxLen(dl));
    StopPoint(x, y, dl, q, |x|);
    StopsFirst(|x| + |y|, DigestStops(TwoSlices(x, y), dl), dl, q, |x|);
  }

  /** Two slices are both filled exactly if the second one is empty or the first one is
      not a multiple of the largest request. */
  lemma FillsTwo(x: seq<nat>, y: seq<nat>, dl: nat)
    requires 0 < dl <= 64
    ensures MaxLen(dl) > 0
    ensures StopsWith(|x| + |y|, DigestStops(TwoSlices(x, y), dl), dl) == if |x| % MaxLen(dl) == 0 then |y| else 0
  {
    MaxLenPositive(dl);
    if y != [] && |x| % MaxLen(dl) == 0 { StopsThere(x, y, dl); }
    if StopsWith(|x| + |y|, DigestStops(TwoSlices(x, y), dl), dl) > 0 { StopsOnlyThere(x, y, dl); }
  }
}
