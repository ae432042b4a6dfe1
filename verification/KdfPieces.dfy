/** How the end of a destination decides about the assertion on partial blocks in
    `generate_chunk_impl` (crypto/src/kdf/mod.rs, utils-common/src/io_slices.rs). */
module KdfPieces {
  import opened Results
  import opened IoSlices
  import opened SliceAccess
  import opened Layouts
  import opened Kdf

  /** The `m` elements behind the first `t` ones are in one slice. */
  ghost predicate OnePiece<T>(l: Layout<T>, t: nat, m: nat) {
    var e := DropFrom(l, t);
    e != [] && e[0] != [] && |e[0][0]| == m
  }

  /** The slice behind the first `t` elements is the last one of an iterator of the
      chain. */
  ghost predicate LastPiece<T>(l: Layout<T>, t: nat) {
    var e := DropFrom(l, t);
    e != [] && |e[0]| == 1
  }

  /** A take of as much as the rest of the first slice. */
  lemma TakePiece<T>(l: Layout<T>, t: nat, it: Iter<T>, bl: nat)
    requires Valid(it) && At(l, t, it) && 0 < |View(it)| < bl
    ensures var e, u := DropFrom(l, t), NextSlice(it, Some(bl));
            && e != [] && e[0] != [] && u.slice.Some? && |u.slice.value| == |e[0][0]| > 0
            && u == NextSlice(it, Some(|e[0][0]|))
  {
    FirstNotEmpty(it);
    DropNothing(LayoutOf(it));
    TakesFollow(it, Some(bl));
    NextSliceLength(it, Some(bl));
    SameTake(it, bl, |NextSlice(it, Some(bl)).slice.value|);
  }

  /** Asking for more than there is in one slice makes no difference. */
  lemma {:induction false} SameTake<T>(it: Iter<T>, m: nat, n: nat)
    requires Valid(it) && NextSlice(it, Some(m)).slice.Some? && |NextSlice(it, Some(m)).slice.value| == n
    ensures NextSlice(it, Some(n)) == NextSlice(it, Some(m))
  {
    match it
    case Chain(iter0, iter1) =>
      if iter0.Some? && View(iter0.value) != [] {
        SameTake(iter0.value, m, n);
      } else if iter1.Some? {
        SameTake(iter1.value, m, n);
      }
    case _ =>
  }

  lemma LastPieceEnds<T>(l: Layout<T>, t: nat, m: nat)
    requires var e := DropFrom(l, t); e != [] && e[0] != [] && |e[0][0]| == m > 0
    ensures EndsWith(l, t + m, m) <==> LastPiece(l, t)
  {
    assert t + m - m == t;
  }

  /** What the take leaves is empty, or passes for it, exactly in these cases. */
  lemma PieceDecides(l: Layout<nat>, t: nat, d: SliceIter<nat>, bl: nat)
    requires At(l, t, d) && 0 < |View(d)| < bl
    ensures var rest := NextSlice(d, Some(bl)).rest;
            && (View(rest) == [] <==> OnePiece(l, t, |View(d)|))
            && (NextSliceLen(rest) == 0 <==> LastPiece(l, t))
  {
    TakePiece(l, t, d, bl);
    var m := |DropFrom(l, t)[0][0]|;
    LastPieceEnds(l, t, m);
    ReportsNothing(l, t, d, m);
    assert |View(d)| == m + |View(NextSlice(d, Some(m)).rest)|;
  }

  lemma ReachableDirectly<T(!new)>(from: SliceIter<T>, to: SliceIter<T>)
    requires Reachable(Iters<T>(), from, to)
    ensures Reachable(ByRef(Iters<T>()), from, to)
  {
    var a, b := Iters<T>(), ByRef(Iters<T>());
    forall on: SliceIter<T> -> bool | Closed(b, on) ensures Closed(a, on) {
      forall it, max | on(it) ensures on(a.next(it, max).1) { assert b.next(it, max) == a.next(it, max); }
    }
  }

  /** All of a destination behind the first `t` elements is in one slice. */
  ghost predicate RestIsOne(dst: SliceIter<nat>, t: nat) {
    t <= |View(dst)| && OnePiece(LayoutOf(dst), t, |View(dst)| - t)
  }

  lemma EndsDirectly(dst: SliceIter<nat>, t: nat, bl: nat)
    requires t <= |View(dst)|
    ensures EndsAfter(Iters<nat>(), dst, t, bl, RestIsOne(dst, t))
  {
    var acc := Iters<nat>();
    forall d: SliceIter<nat> | Reachable(acc, dst, d) && 0 < |View(d)| < bl && t + |View(d)| == |View(dst)|
      ensures IsEmpty(NextSlice(d, Some(bl)).rest) <==> OnePiece(LayoutOf(dst), t, |View(d)|)
    {
      ReachableDirectly(dst, d);
      ReachableAt(dst, d);
      PieceDecides(LayoutOf(dst), t, d, bl);
    }
  }

  lemma EndsThroughReference(dst: SliceIter<nat>, t: nat, bl: nat)
    ensures EndsAfter(ByRef(Iters<nat>()), dst, t, bl, LastPiece(LayoutOf(dst), t))
  {
    var acc := ByRef(Iters<nat>());
    forall d: SliceIter<nat> | Reachable(acc, dst, d) && 0 < |View(d)| < bl && t + |View(d)| == |View(dst)|
      ensures NextSliceLen(NextSlice(d, Some(bl)).rest) == 0 <==> LastPiece(LayoutOf(dst), t)
    {
      ReachableAt(dst, d);
      PieceDecides(LayoutOf(dst), t, d, bl);
    }
  }

  /** A destination gets nothing of a partial block at the end of `n` bytes, or gets it
      in one piece; behind a reference, in a piece after which it passes for empty. */
  ghost predicate KeepsTail(dst: SliceIter<nat>, byRef: bool, n: nat, bl: nat)
    requires bl > 0
  {
    var p := Tail(n, bl);
    p == 0 || |View(dst)| + p <= n || (if byRef then LastPiece(LayoutOf(dst), n - p) else RestIsOne(dst, n - p))
  }

  /** The operations of an iterator, or of a mutable reference to it. */
  function Through(byRef: bool): Access<SliceIter<nat>, nat> {
    if byRef then ByRef(Iters<nat>()) else Iters<nat>()
  }

  lemma HeldIs<I(!new)>(dacc: Access<I, nat>, dst: I, bl: nat, t: nat, p: nat, j: nat, held: bool, one: bool)
    requires HeldUpTo(dacc, dst, bl, t, p, j, held) && EndsAfter(dacc, dst, t, bl, one) && p > 0 && t < j
    ensures held == one
  {
  }

  lemma HeldThrough(dst: SliceIter<nat>, byRef: bool, bl: nat, n: nat, p: nat, held: bool)
    requires bl > 0 && p == Tail(n, bl) && HeldUpTo(Through(byRef), dst, bl, n - p, p, |View(dst)|, held)
    ensures held <==> KeepsTail(dst, byRef, n, bl)
  {
    var t := n - p;
    if p > 0 && t < |View(dst)| {
      if byRef {
        EndsThroughReference(dst, t, bl);
        HeldIs(ByRef(Iters<nat>()), dst, bl, t, p, |View(dst)|, held, LastPiece(LayoutOf(dst), t));
      } else {
        EndsDirectly(dst, t, bl);
        HeldIs(Iters<nat>(), dst, bl, t, p, |View(dst)|, held, RestIsOne(dst, t));
      }
    }
  }
}
