/** How the elements of an iterator are laid out over the iterators of a chain and
    their slices, and what takes make of it: this decides where a chain passes for
    empty through a mutable reference (utils-common/src/io_slices.rs). */
module Layouts {
  import opened Results
  import opened Bytes
  import opened IoSlices
  import opened SliceMemory
  import opened SliceAccess
  import opened IoSliceOps

  /** For every live iterator of a chain, in order, its slices that are not empty. */
  type Layout<T> = seq<seq<seq<T>>>

  function LayoutOf<T>(it: Iter<T>): (l: Layout<T>)
    ensures l != []
  {
    match it
    case Chain(iter0, iter1) =>
      if iter0.None? && iter1.None? then [[]] else OptLayout(iter0) + OptLayout(iter1)
    case _ => [Walk(it)]
  }
  function OptLayout<T>(it: Option<Iter<T>>): (l: Layout<T>)
    ensures it.Some? ==> l != []
  {
    if it.Some? then LayoutOf(it.value) else []
  }

  /** Without exhausted iterators at the front. */
  function Live<T>(l: Layout<T>): (r: Layout<T>)
    ensures r != [] ==> r[0] != []
  {
    if l != [] && |l[0]| == 0 then Live(l[1..]) else l
  }

  lemma {:induction false} LiveConcat<T>(a: Layout<T>, b: Layout<T>)
    ensures Live(a + b) == if Live(a) == [] then Live(b) else Live(a) + b
  {
    if a == [] {
      assert a + b == b;
    } else {
      assert (a + b)[1..] == a[1..] + b && (a + b)[0] == a[0];
      if |a[0]| == 0 { LiveConcat(a[1..], b); }
    }
  }

  /** The layout after a take. */
  function AfterTake<T>(l: Layout<T>, max: Option<nat>): (r: Layout<T>)
    requires Live(l) != []
  {
    var r := Live(l);
    [Remainder(r[0][0], max) + r[0][1..]] + r[1..]
  }

  /** The length reported. */
  function FirstLen<T>(l: Layout<T>): nat
    requires l != []
  {
    if |l[0]| == 0 then 0 else |l[0][0]|
  }

  /** Length and takes are what the layout says. */
  ghost predicate Follows<T>(it: Iter<T>, max: Option<nat>)
    requires Valid(it)
  {
    var t, l := NextSlice(it, max), LayoutOf(it);
    && NextSliceLen(it) == FirstLen(l)
    && (t.slice.None? <==> Live(l) == [])
    && (t.slice.Some? ==> t.slice.value == HeadPart(Live(l)[0][0], max) && LayoutOf(t.rest) == AfterTake(l, max))
  }

  lemma LeafLen<T>(it: Iter<T>)
    requires Valid(it) && !it.Chain?
    ensures NextSliceLen(it) == if Walk(it) == [] then 0 else |Walk(it)[0]|
  {
    if it.Buffers? {
      RefilledWalk(it);
      var b := Refilled(it);
      if b.head.Some? { HeadWalk(b.head.value, b.bufs, b.tail); }
    }
  }

  lemma SingleLeaf<T>(w: seq<seq<T>>, max: Option<nat>)
    ensures FirstLen([w]) == if w == [] then 0 else |w[0]|
    ensures Live([w]) == if w == [] then [] else [w]
    ensures w != [] ==> AfterTake([w], max) == [Remainder(w[0], max) + w[1..]]
  {
    if w == [] { assert Live([w]) == Live([w][1..]) == Live([]); }
  }

  lemma LeafFollows<T>(it: Iter<T>, max: Option<nat>)
    requires Valid(it) && !it.Chain?
    ensures Follows(it, max)
  {
    LeafLen(it);
    TakeCutsWalk(it, max);
    SingleLeaf(Walk(it), max);
    var t := NextSlice(it, max);
    assert !t.rest.Chain?;
    assert LayoutOf(it) == [Walk(it)] && LayoutOf(t.rest) == [Walk(t.rest)];
  }

  lemma TakeFirst<T>(a: Layout<T>, b: Layout<T>, max: Option<nat>)
    requires Live(a) != []
    ensures Live(a + b) != [] && Live(a + b)[0] == Live(a)[0] && AfterTake(a + b, max) == AfterTake(a, max) + b
  {
    LiveConcat(a, b);
    var r := Live(a);
    assert (r + b)[1..] == r[1..] + b;
  }

  /** The first iterator of a chain still has something. */
  lemma FirstFollows<T>(i0: Iter<T>, iter1: Option<Iter<T>>, max: Option<nat>)
    requires Valid(i0) && (iter1.Some? ==> Valid(iter1.value)) && Follows(i0, max) && View(i0) != []
    ensures Follows(Chain(Some(i0), iter1), max)
  {
    var it, t := Chain(Some(i0), iter1), NextSlice(i0, max);
    assert NextSlice(it, max) == Taken(t.slice, Chain(Some(t.rest), iter1));
    assert LayoutOf(it) == LayoutOf(i0) + OptLayout(iter1);
    assert LayoutOf(Chain(Some(t.rest), iter1)) == LayoutOf(t.rest) + OptLayout(iter1);
    TakeFirst(LayoutOf(i0), OptLayout(iter1), max);
  }

  /** The second one is left. */
  lemma SecondFollows<T>(i1: Iter<T>, max: Option<nat>)
    requires Valid(i1) && Follows(i1, max)
    ensures var r, l := NextOfSecond(Some(i1), max), LayoutOf(i1);
            && (r.slice.None? <==> Live(l) == [])
            && (r.slice.Some? ==> r.slice.value == HeadPart(Live(l)[0][0], max) && LayoutOf(r.rest) == AfterTake(l, max))
  {
    var t := NextSlice(i1, max);
    assert LayoutOf(Chain(None, Some(t.rest))) == [] + LayoutOf(t.rest) == LayoutOf(t.rest);
  }

  lemma ChainFollows<T>(it: Iter<T>, max: Option<nat>)
    requires it.Chain? && Valid(it)
    requires it.iter0.Some? ==> Follows(it.iter0.value, max)
    requires it.iter1.Some? ==> Follows(it.iter1.value, max)
    ensures Follows(it, max)
  {
    if it.iter0.Some? && View(it.iter0.value) != [] {
      FirstFollows(it.iter0.value, it.iter1, max);
    } else if it.iter1.Some? {
      SecondFollows(it.iter1.value, max);
      LiveConcat(OptLayout(it.iter0), LayoutOf(it.iter1.value));
      assert NextSlice(it, max) == NextOfSecond(it.iter1, max);
    } else {
      assert NextSlice(it, max).slice.None?;
      if it.iter0.Some? { assert LayoutOf(it) == LayoutOf(it.iter0.value) + [] == LayoutOf(it.iter0.value); }
    }
  }

  lemma {:induction false} TakesFollow<T>(it: Iter<T>, max: Option<nat>)
    requires Valid(it)
    ensures Follows(it, max)
  {
    match it
    case Chain(iter0, iter1) =>
      if iter0.Some? { TakesFollow(iter0.value, max); }
      if iter1.Some? { TakesFollow(iter1.value, max); }
      ChainFollows(it, max);
    case _ => LeafFollows(it, max);
  }

  // ---- after any number of elements ----

  ghost function SliceCount<T>(l: Layout<T>): nat { if l == [] then 0 else |l[0]| + SliceCount(l[1..]) }

  /** What is left after `n` elements, without exhausted iterators at the front. */
  ghost function DropFrom<T>(l: Layout<T>, n: nat): Layout<T>
    decreases SliceCount(l), |l|
  {
    if l == [] then []
    else if |l[0]| == 0 then DropFrom(l[1..], n)
    else if n < |l[0][0]| then [[l[0][0][n..]] + l[0][1..]] + l[1..]
    else DropFrom([l[0][1..]] + l[1..], n - |l[0][0]|)
  }

  lemma {:induction false} DropTwice<T>(l: Layout<T>, n: nat, m: nat)
    ensures DropFrom(DropFrom(l, n), m) == DropFrom(l, n + m)
    decreases SliceCount(l), |l|
  {
    if l == [] {
    } else if |l[0]| == 0 {
      DropTwice(l[1..], n, m);
    } else {
      var w, rest := l[0][0], [l[0][1..]] + l[1..];
      assert SliceCount(rest) < SliceCount(l) by { assert rest[0] == l[0][1..] && rest[1..] == l[1..]; }
      if n < |w| {
        DropWithin(w, l[0][1..], l[1..], n, m);
        assert [w] + l[0][1..] == l[0] && [l[0]] + l[1..] == l;
      } else {
        DropTwice(rest, n - |w|, m);
        assert n - |w| + m == n + m - |w|;
      }
    }
  }
  lemma DropWithin<T>(w: seq<T>, ws: seq<seq<T>>, ls: Layout<T>, n: nat, m: nat)
    requires n < |w|
    ensures DropFrom([[w[n..]] + ws] + ls, m) == DropFrom([[w] + ws] + ls, n + m)
  {
    var a, b := [[w[n..]] + ws] + ls, [[w] + ws] + ls;
    assert a[0][0] == w[n..] && b[0][0] == w && a[0][1..] == ws == b[0][1..] && a[1..] == ls == b[1..];
    if m < |w| - n { assert w[n..][m..] == w[n + m..]; }
  }

  lemma {:induction false} DropNothing<T>(l: Layout<T>)
    requires Live(l) != [] ==> |Live(l)[0][0]| > 0
    ensures DropFrom(l, 0) == Live(l)
  {
    if l != [] {
      if |l[0]| == 0 {
        DropNothing(l[1..]);
      } else {
        assert l[0][0][0..] == l[0][0] && [l[0][0]] + l[0][1..] == l[0] && [l[0]] + l[1..] == l;
      }
    }
  }

  /** Exhausted iterators at the front make no difference. */
  lemma {:induction false} DropLive<T>(l: Layout<T>, n: nat)
    ensures DropFrom(l, n) == DropFrom(Live(l), n)
  {
    if l != [] && |l[0]| == 0 { DropLive(l[1..], n); }
  }

  lemma DropTaken<T>(l: Layout<T>, max: Option<nat>)
    requires Live(l) != [] && |Live(l)[0][0]| > 0
    ensures DropFrom(AfterTake(l, max), 0) == DropFrom(l, |HeadPart(Live(l)[0][0], max)|)
  {
    var r := Live(l);
    var w, ws, ls := r[0][0], r[0][1..], r[1..];
    var k := Bounded(max, |w|);
    DropLive(l, k);
    assert [w] + ws == r[0];
    assert r == [[w] + ws] + ls;
    var a := AfterTake(l, max);
    assert a[0] == Remainder(w, max) + ws && a[1..] == ls;
    if k < |w| {
      assert a == [[w[k..]] + ws] + ls;
      DropWithin(w, ws, ls, k, 0);
    } else {
      assert Remainder(w, max) + ws == ws;
      assert a == [ws] + ls;
    }
  }

  // ---- iterators on the way ----

  /** `it` is where takes of `n` elements from the layout `l` lead. */
  ghost predicate At<T>(l: Layout<T>, n: nat, it: Iter<T>) { DropFrom(LayoutOf(it), 0) == DropFrom(l, n) }

  lemma LayoutMoves<T>(l: Layout<T>, n: nat, k: Layout<T>, max: Option<nat>)
    requires DropFrom(k, 0) == DropFrom(l, n) && Live(k) != [] && |Live(k)[0][0]| > 0
    ensures DropFrom(AfterTake(k, max), 0) == DropFrom(l, n + |HeadPart(Live(k)[0][0], max)|)
  {
    var m := |HeadPart(Live(k)[0][0], max)|;
    DropTaken(k, max);
    DropTwice(k, 0, m);
    DropTwice(l, n, m);
  }

  lemma TakeMoves<T>(l: Layout<T>, n: nat, it: Iter<T>, max: Option<nat>)
    requires Valid(it) && At(l, n, it) && View(it) != []
    ensures var t := NextSlice(it, max); At(l, n + |Slot(t.slice)|, t.rest)
  {
    FirstNotEmpty(it);
    TakesFollow(it, max);
    LayoutMoves(l, n, LayoutOf(it), max);
  }

  // Slices of a layout are not empty.

  ghost predicate NoneEmpty<T>(w: seq<seq<T>>) { forall i :: 0 <= i < |w| ==> |w[i]| > 0 }
  ghost predicate NoEmptySlices<T>(l: Layout<T>) { forall i :: 0 <= i < |l| ==> NoneEmpty(l[i]) }

  lemma {:induction false} NonEmptyIs<T>(bufs: seq<seq<T>>)
    ensures NoneEmpty(NonEmpty(bufs))
  {
    if bufs != [] { NonEmptyIs(bufs[1..]); }
  }

  lemma {:induction false} LayoutHasNone<T>(it: Iter<T>)
    ensures NoEmptySlices(LayoutOf(it))
  {
    match it
    case Buffers(head, bufs, tail) => NonEmptyIs(bufs);
    case Singleton(_) =>
    case Chain(iter0, iter1) =>
      if iter0.Some? { LayoutHasNone(iter0.value); }
      if iter1.Some? { LayoutHasNone(iter1.value); }
  }

  lemma FirstNotEmpty<T>(it: Iter<T>)
    requires Valid(it) && View(it) != []
    ensures Live(LayoutOf(it)) != [] && |Live(LayoutOf(it))[0][0]| > 0
  {
    NextSliceLength(it, Some(1));
    TakesFollow(it, Some(1));
  }

  /** `n` elements of the layout end with a piece of `m` that is the last one of an
      iterator of the chain; or, for none, the first iterator has none. */
  ghost predicate EndsWith<T>(l: Layout<T>, n: nat, m: nat) {
    if n == 0 then l != [] && FirstLen(l) == 0
    else n >= m && var e := DropFrom(l, n - m); e != [] && |e[0]| == 1 && |e[0][0]| == m
  }

  lemma LayoutReports<T>(l: Layout<T>, n: nat, k: Layout<T>, m: nat)
    requires DropFrom(k, 0) == DropFrom(l, n) && Live(k) != [] && |Live(k)[0][0]| >= m > 0
    requires NoneEmpty(AfterTake(k, Some(m))[0])
    ensures FirstLen(AfterTake(k, Some(m))) == 0 <==> EndsWith(l, n + m, m)
  {
    DropNothing(k);
    var e := Live(k);
    assert DropFrom(l, n) == e && n + m - m == n;
    assert AfterTake(k, Some(m))[0] == Remainder(e[0][0], Some(m)) + e[0][1..];
  }

  /** After a take of `m`, a chain reports nothing exactly if this was the last piece of
      one of its iterators. */
  lemma ReportsNothing<T>(l: Layout<T>, n: nat, it: Iter<T>, m: nat)
    requires Valid(it) && At(l, n, it) && View(it) != [] && m > 0
    requires |NextSlice(it, Some(m)).slice.value| == m
    ensures NextSliceLen(NextSlice(it, Some(m)).rest) == 0 <==> EndsWith(l, n + m, m)
  {
    FirstNotEmpty(it);
    TakesFollow(it, Some(m));
    var rest := NextSlice(it, Some(m)).rest;
    TakesFollow(rest, None);
    LayoutHasNone(rest);
    LayoutReports(l, n, LayoutOf(it), m);
  }

  /** For copying, where the last take may have had any length, only the last element
      counts. */
  lemma EndsWithLast<T>(l: Layout<T>, n: nat, m: nat)
    requires m > 0 && DropFrom(l, n) != [] && DropFrom(l, n)[0] != [] && m <= |DropFrom(l, n)[0][0]|
    ensures EndsWith(l, n + m, m) <==> EndsWith(l, n + m, 1)
  {
    DropTwice(l, n, m - 1);
    var e := DropFrom(l, n);
    var f := DropFrom(e, m - 1);
    assert f == [[e[0][0][m - 1..]] + e[0][1..]] + e[1..];
    assert f[0] == [e[0][0][m - 1..]] + e[0][1..];
    assert DropFrom(l, n + m - 1) == f && n + m - m == n;
  }

  // ---- through a mutable reference ----

  /** What all takes keep: the iterator is where its layout says. */
  ghost predicate OnLayout<T>(l: Layout<T>, total: nat, it: Iter<T>) {
    |View(it)| <= total && (View(it) == [] || At(l, total - |View(it)|, it))
  }

  lemma TakesStay<T>(l: Layout<T>, total: nat, it: Iter<T>, max: Option<nat>)
    requires Valid(it) && OnLayout(l, total, it)
    ensures OnLayout(l, total, NextSlice(it, max).rest)
  {
    if View(it) != [] { TakeMoves(l, total - |View(it)|, it, max); }
  }

  lemma ReachableAt<T(!new)>(src: SliceIter<T>, it: SliceIter<T>)
    requires Reachable(ByRef(Iters<T>()), src, it)
    ensures OnLayout(LayoutOf(src), |View(src)|, it)
  {
    var acc, l, n := ByRef(Iters<T>()), LayoutOf(src), |View(src)|;
    var on := (i: SliceIter<T>) => OnLayout(l, n, i);
    forall i: SliceIter<T>, max | on(i) ensures on(acc.next(i, max).1) { TakesStay(l, n, i, max); }
    assert Closed(acc, on) && on(src);
  }

  /** The chain passes for empty after `n` elements if the last one of them is the last
      one of an iterator of the chain. */
  ghost function StopsAfterAny<T>(src: Iter<T>): nat -> bool {
    (left: nat) => left <= |View(src)| && EndsWith(LayoutOf(src), |View(src)| - left, 1)
  }

  lemma EmptyAtOnce<T>(src: Iter<T>, m: nat)
    requires Valid(src)
    ensures NextSliceLen(src) == 0 <==> EndsWith(LayoutOf(src), 0, m)
  {
    TakesFollow(src, None);
  }

  /** The piece taken is within the first slice of what is left. */
  lemma WithinFirst<T>(l: Layout<T>, n: nat, it: Iter<T>, m: nat)
    requires Valid(it) && At(l, n, it) && View(it) != [] && |NextSlice(it, Some(m)).slice.value| == m
    ensures DropFrom(l, n) != [] && DropFrom(l, n)[0] != [] && m <= |DropFrom(l, n)[0][0]|
  {
    FirstNotEmpty(it);
    DropNothing(LayoutOf(it));
    TakesFollow(it, Some(m));
  }

  /** `s` is what a take of exactly `m` elements leaves of `e`, `n` elements into `src`. */
  ghost predicate TakenFrom<T(!new)>(src: SliceIter<T>, e: SliceIter<T>, m: nat, s: SliceIter<T>, n: nat) {
    && Reachable(ByRef(Iters<T>()), src, e) && m > 0 && ByRef(Iters<T>()).next(e, Some(m)).1 == s
    && |View(e)| == |View(s)| + m && n + |View(s)| == |View(src)|
  }

  lemma TakenIs<T(!new)>(src: SliceIter<T>, e: SliceIter<T>, m: nat, s: SliceIter<T>, n: nat)
    requires TakenFrom(src, e, m, s, n)
    ensures View(e) != [] && NextSlice(e, Some(m)).rest == s && |NextSlice(e, Some(m)).slice.value| == m
    ensures n >= m && At(LayoutOf(src), n - m, e)
  {
    assert IterNext(e, Some(m)).1 == s;
    ReachableAt(src, e);
  }

  lemma EmptyAfterTake<T(!new)>(src: SliceIter<T>, e: SliceIter<T>, m: nat, s: SliceIter<T>, n: nat)
    requires TakenFrom(src, e, m, s, n)
    ensures NextSliceLen(s) == 0 <==> EndsWith(LayoutOf(src), n, m)
  {
    TakenIs(src, e, m, s, n);
    ReportsNothing(LayoutOf(src), n - m, e, m);
  }

  lemma LastCounts<T(!new)>(src: SliceIter<T>, e: SliceIter<T>, m: nat, s: SliceIter<T>, n: nat)
    requires TakenFrom(src, e, m, s, n)
    ensures EndsWith(LayoutOf(src), n, m) <==> EndsWith(LayoutOf(src), n, 1)
  {
    TakenIs(src, e, m, s, n);
    WithinFirst(LayoutOf(src), n - m, e, m);
    EndsWithLast(LayoutOf(src), n - m, m);
  }

  lemma CopyStopsAt<T(!new)>(src: SliceIter<T>, s: SliceIter<T>, n: nat)
    requires View(s) != [] && n + |View(s)| == |View(src)|
    requires LeftAt(ByRef(Iters<T>()), src, n, s)
    ensures NextSliceLen(s) == 0 <==> EndsWith(LayoutOf(src), n, 1)
  {
    if n == 0 {
      EmptyAtOnce(src, 1);
    } else {
      var acc := ByRef(Iters<T>());
      var e: SliceIter<T>, m: nat :| Reachable(acc, src, e) && m > 0 && acc.next(e, Some(m)).1 == s && |acc.view(e)| == |acc.view(s)| + m;
      assert TakenFrom(src, e, m, s, n);
      EmptyAfterTake(src, e, m, s, n);
      LastCounts(src, e, m, s, n);
    }
  }

  lemma CopyStops<T(!new)>(src: SliceIter<T>)
    ensures PassesFor(ByRef(Iters<T>()), src, StopsAfterAny(src))
  {
    var acc := ByRef(Iters<T>());
    forall s: SliceIter<T> | View(s) != [] && |View(s)| <= |View(src)| && LeftAt(acc, src, |View(src)| - |View(s)|, s)
      ensures NextSliceLen(s) == 0 <==> EndsWith(LayoutOf(src), |View(src)| - |View(s)|, 1)
    {
      CopyStopsAt(src, s, |View(src)| - |View(s)|);
    }
  }

  // ---- copying everything ----

  /** From a source that is not behind a reference, `copy_from_iter_exhaustive` succeeds
      exactly for equal lengths. */
  method CopyDirectly<I(!new)>(mem: array<byte>, dacc: Access<I, nat>, dst: I, src: SliceIter<byte>) returns (ok: bool)
    requires IsAccess(dacc) && Within(dacc.view(dst), mem.Length)
    modifies mem
    ensures ok <==> |dacc.view(dst)| == |View(src)|
    ensures ok ==> mem[..] == Put(old(mem[..]), dacc.view(dst), View(src), |View(src)|)
  {
    ItersKeepPromises<byte>();
    var acc := Iters<byte>();
    assert PassesFor(acc, src, _ => false);
    assert acc.view(src) == View(src);
    ok := CopyExhaustive(mem, dacc, dst, acc, src);
  }

  /** Behind a reference, it also succeeds for a destination that ends exactly where an
      iterator of the source's chain does, with bytes left behind. */
  method CopyThroughReference<I(!new)>(mem: array<byte>, dacc: Access<I, nat>, dst: I, src: SliceIter<byte>) returns (ok: bool)
    requires IsAccess(dacc) && Within(dacc.view(dst), mem.Length)
    modifies mem
    ensures var n, m := |dacc.view(dst)|, |View(src)|;
            ok <==> n == m || (n < m && EndsWith(LayoutOf(src), n, 1))
    ensures ok ==> |dacc.view(dst)| <= |View(src)| && mem[..] == Put(old(mem[..]), dacc.view(dst), View(src), |dacc.view(dst)|)
  {
    ItersKeepPromises<byte>();
    ByRefKeepsPromises(Iters<byte>());
    CopyStops(src);
    var acc := ByRef(Iters<byte>());
    assert acc.view(src) == View(src);
    ok := CopyExhaustive(mem, dacc, dst, acc, src);
  }

  /** Two of three bytes. */
  lemma LeavesByteBehind()
    ensures var src: Iter<byte> := Chain(Some(Singleton(Some([5, 6]))), Some(Singleton(Some([7]))));
            Valid(src) && View(src) == [5, 6, 7] && EndsWith(LayoutOf(src), 2, 1)
  {
    var a, b: Iter<byte> := Singleton(Some([5, 6])), Singleton(Some([7]));
    assert Walk(a) == [[5, 6]] && Walk(b) == [[7]] && LayoutOf(a) == [[[5, 6]]] && LayoutOf(b) == [[[7]]];
    var l: Layout<byte> := [[[5, 6]], [[7]]];
    assert LayoutOf(Chain(Some(a), Some(b))) == LayoutOf(a) + LayoutOf(b) == l;
    assert l[0][0] == [5, 6] && l[0][0][1..] == [6];
    assert DropFrom(l, 1) == [[l[0][0][1..]] + l[0][1..]] + l[1..];
    assert DropFrom(l, 1)[0] == [[6]];
  }
}
