/** Scatter-gather iterators over slices (utils-common/src/io_slices.rs). Elements
    are the bytes themselves for a source, and addresses for a destination. */
module IoSlices {
  import opened Results

  /** `BuffersSliceIoSlices(Mut)Iter`, `SingletonIoSlice(Mut)` and
      `IoSlicesIterChain`. */
  datatype Iter<T> =
    | Buffers(head: Option<seq<T>>, bufs: seq<seq<T>>, tail: Option<seq<T>>)
    | Singleton(slice: Option<seq<T>>)
    | Chain(iter0: Option<Iter<T>>, iter1: Option<Iter<T>>)

  function Flatten<T>(bufs: seq<seq<T>>): seq<T> {
    if bufs == [] then [] else bufs[0] + Flatten(bufs[1..])
  }

  lemma {:induction false} FlattenConcat<T>(a: seq<seq<T>>, b: seq<seq<T>>)
    ensures Flatten(a + b) == Flatten(a) + Flatten(b)
  {
    if a == [] {
      assert a + b == b;
    } else {
      FlattenConcat(a[1..], b);
      assert (a + b)[1..] == a[1..] + b && (a + b)[0] == a[0];
      ConcatAssoc(a[0], Flatten(a[1..]), Flatten(b));
    }
  }

  lemma ConcatAssoc<T>(a: seq<T>, b: seq<T>, c: seq<T>)
    ensures a + (b + c) == (a + b) + c
  {
  }

  function Slot<T>(slice: Option<seq<T>>): seq<T> { if slice.Some? then slice.value else [] }

  /** What an iterator has left, in order. */
  function View<T>(it: Iter<T>): seq<T> {
    match it
    case Buffers(head, bufs, tail) => Slot(head) + Flatten(bufs) + Slot(tail)
    case Singleton(slice) => Slot(slice)
    case Chain(iter0, iter1) => OptView(iter0) + OptView(iter1)
  }
  function OptView<T>(it: Option<Iter<T>>): seq<T> { if it.Some? then View(it.value) else [] }

  /** No saved head or tail is empty. */
  predicate Valid<T>(it: Iter<T>) {
    match it
    case Buffers(head, _, tail) => (head.Some? ==> |head.value| > 0) && (tail.Some? ==> |tail.value| > 0)
    case Singleton(_) => true
    case Chain(iter0, iter1) => (iter0.Some? ==> Valid(iter0.value)) && (iter1.Some? ==> Valid(iter1.value))
  }

  /** The number of iterators still in a chain. */
  function Links<T>(it: Iter<T>): nat {
    match it
    case Chain(iter0, iter1) => OptLinks(iter0) + OptLinks(iter1)
    case _ => 0
  }
  function OptLinks<T>(it: Option<Iter<T>>): nat { if it.Some? then 1 + Links(it.value) else 0 }

  // ---- taking from the front ----

  /** Replace a missing head by the first non-empty buffer, or else the tail. */
  function Refill<T>(bufs: seq<seq<T>>, tail: Option<seq<T>>): (it: Iter<T>)
    requires tail.Some? ==> |tail.value| > 0
    ensures it.Buffers? && Valid(it) && View(it) == Flatten(bufs) + Slot(tail)
    ensures it.head.None? ==> it == Buffers(None, [], None)
  {
    if bufs == [] then Buffers(tail, [], None)
    else if |bufs[0]| == 0 then Refill(bufs[1..], tail)
    else
      assert View(Buffers(Some(bufs[0]), bufs[1..], tail)) == Flatten(bufs) + Slot(tail);
      Buffers(Some(bufs[0]), bufs[1..], tail)
  }

  function Refilled<T>(it: Iter<T>): (r: Iter<T>)
    requires it.Buffers? && Valid(it)
    ensures r.Buffers? && Valid(r) && View(r) == View(it)
    ensures r.head.None? ==> r == Buffers(None, [], None)
  {
    if it.head.None? then
      assert View(it) == Flatten(it.bufs) + Slot(it.tail);
      Refill(it.bufs, it.tail)
    else it
  }

  /** `next_slice_len`: zero for a chain whose first iterator is exhausted, even
      with more to come from the second one. */
  function NextSliceLen<T>(it: Iter<T>): (n: nat)
    requires Valid(it)
    ensures n <= |View(it)|
    ensures !it.Chain? && n == 0 ==> View(it) == []
  {
    match it
    case Buffers(_, _, _) => |Slot(Refilled(it).head)|
    case Singleton(slice) => |Slot(slice)|
    case Chain(iter0, iter1) =>
      if iter0.Some? then NextSliceLen(iter0.value)
      else if iter1.Some? then NextSliceLen(iter1.value)
      else 0
  }

  function Min(a: nat, b: nat): nat { if a < b then a else b }
  function Bounded(max: Option<nat>, n: nat): nat { if max.Some? then Min(max.value, n) else n }

  datatype Taken<T> = Taken(slice: Option<seq<T>>, rest: Iter<T>)

  /** Cut a non-empty slice in two. */
  function HeadPart<T>(h: seq<T>, max: Option<nat>): seq<T> { h[..Bounded(max, |h|)] }
  function TailPart<T>(h: seq<T>, max: Option<nat>): seq<T> { h[Bounded(max, |h|)..] }

  function NextOfBuffers<T>(it: Iter<T>, max: Option<nat>): (r: Taken<T>)
    requires it.Buffers? && Valid(it)
    ensures Valid(r.rest) && View(it) == Slot(r.slice) + View(r.rest)
    ensures r.slice.None? <==> View(it) == []
  {
    var b := Refilled(it);
    if b.head.None? then Taken(None, b)
    else
      var h := b.head.value;
      var rest := b.(head := if |TailPart(h, max)| > 0 then Some(TailPart(h, max)) else None);
      assert h == HeadPart(h, max) + Slot(rest.head);
      ConcatAssoc(HeadPart(h, max), Slot(rest.head), Flatten(b.bufs));
      ConcatAssoc(HeadPart(h, max), Slot(rest.head) + Flatten(b.bufs), Slot(b.tail));
      Taken(Some(HeadPart(h, max)), rest)
  }

  function NextOfSingleton<T>(it: Iter<T>, max: Option<nat>): (r: Taken<T>)
    requires it.Singleton?
    ensures Valid(r.rest) && View(it) == Slot(r.slice) + View(r.rest)
    ensures r.slice.None? <==> View(it) == []
  {
    var h := Slot(it.slice);
    if |h| == 0 then Taken(None, Singleton(None))
    else
      assert h == HeadPart(h, max) + TailPart(h, max);
      Taken(Some(HeadPart(h, max)), Singleton(Some(TailPart(h, max))))
  }

  /** `next_slice`. */
  function NextSlice<T>(it: Iter<T>, max: Option<nat>): (r: Taken<T>)
    requires Valid(it)
    ensures Valid(r.rest) && View(it) == Slot(r.slice) + View(r.rest)
    ensures r.slice.None? <==> View(it) == []
  {
    match it
    case Buffers(_, _, _) => NextOfBuffers(it, max)
    case Singleton(_) => NextOfSingleton(it, max)
    case Chain(iter0, iter1) =>
      if iter0.Some? then
        var t := NextSlice(iter0.value, max);
        if t.slice.Some? then
          ConcatAssoc(t.slice.value, View(t.rest), OptView(iter1));
          Taken(t.slice, Chain(Some(t.rest), iter1))
        else NextOfSecond(iter1, max)
      else NextOfSecond(iter1, max)
  }
  function NextOfSecond<T>(iter1: Option<Iter<T>>, max: Option<nat>): (r: Taken<T>)
    requires iter1.Some? ==> Valid(iter1.value)
    ensures Valid(r.rest) && OptView(iter1) == Slot(r.slice) + View(r.rest)
    ensures r.slice.None? <==> OptView(iter1) == []
  {
    if iter1.None? then Taken(None, Chain(None, None))
    else
      var t := NextSlice(iter1.value, max);
      Taken(t.slice, Chain(None, if t.slice.Some? then Some(t.rest) else None))
  }

  /** How much `next_slice` hands out, and that a chain cannot hand out nothing for
      ever: if it reports no length it gives up one of its iterators. */
  lemma {:induction false} NextSliceLength<T>(it: Iter<T>, max: Option<nat>)
    requires Valid(it) && View(it) != []
    ensures var s, rest := NextSlice(it, max).slice.value, NextSlice(it, max).rest;
            && (max.Some? ==> |s| <= max.value)
            && Bounded(max, NextSliceLen(it)) <= |s|
            && (max != Some(0) ==> |s| > 0)
            && Links(rest) <= Links(it)
            && (NextSliceLen(it) == 0 ==> Links(rest) < Links(it))
  {
    match it
    case Buffers(_, _, _) =>
    case Singleton(_) =>
    case Chain(iter0, iter1) =>
      if iter0.Some? && View(iter0.value) != [] {
        NextSliceLength(iter0.value, max);
      } else {
        NextSliceLength(iter1.value, max);
      }
  }

  /** A take of no length gives up what is exhausted: after it, something is reported
      if there is something. */
  lemma {:induction false} NextSettles<T>(it: Iter<T>)
    requires Valid(it) && View(it) != []
    ensures NextSliceLen(NextSlice(it, Some(0)).rest) > 0
  {
    match it
    case Buffers(_, _, _) =>
    case Singleton(_) =>
    case Chain(iter0, iter1) =>
      if iter0.Some? && View(iter0.value) != [] {
        NextSettles(iter0.value);
      } else {
        NextSettles(iter1.value);
      }
  }

  /** `next_slice_len` may move a buffer into the head; nothing that follows can
      tell. */
  lemma RefillIsInvisible<T>(it: Iter<T>, max: Option<nat>)
    requires it.Buffers? && Valid(it)
    ensures NextSlice(Refilled(it), max) == NextSlice(it, max)
  {
  }

  // ---- taking from the back ----

  /** Replace a missing tail by the last non-empty buffer, or else the head. */
  function RefillBack<T>(head: Option<seq<T>>, bufs: seq<seq<T>>): (it: Iter<T>)
    requires head.Some? ==> |head.value| > 0
    ensures it.Buffers? && Valid(it) && View(it) == Slot(head) + Flatten(bufs)
    ensures it.tail.None? ==> it == Buffers(None, [], None)
  {
    if bufs == [] then Buffers(None, [], head)
    else
      var n := |bufs| - 1;
      assert bufs == bufs[..n] + [bufs[n]];
      FlattenConcat(bufs[..n], [bufs[n]]);
      assert Flatten([bufs[n]]) == bufs[n];
      if |bufs[n]| == 0 then RefillBack(head, bufs[..n]) else Buffers(head, bufs[..n], Some(bufs[n]))
  }

  function BackRefilled<T>(it: Iter<T>): (r: Iter<T>)
    requires it.Buffers? && Valid(it)
    ensures r.Buffers? && Valid(r) && View(r) == View(it)
    ensures r.tail.None? ==> r == Buffers(None, [], None)
  {
    if it.tail.None? then RefillBack(it.head, it.bufs) else it
  }

  function FrontPart<T>(t: seq<T>, max: Option<nat>): seq<T> { t[..|t| - Bounded(max, |t|)] }
  function BackPart<T>(t: seq<T>, max: Option<nat>): seq<T> { t[|t| - Bounded(max, |t|)..] }

  function BackOfBuffers<T>(it: Iter<T>, max: Option<nat>): (r: Taken<T>)
    requires it.Buffers? && Valid(it)
    ensures Valid(r.rest) && View(it) == View(r.rest) + Slot(r.slice)
    ensures r.slice.None? <==> View(it) == []
  {
    var b := BackRefilled(it);
    if b.tail.None? then Taken(None, b)
    else
      var t := b.tail.value;
      var rest := b.(tail := if |FrontPart(t, max)| > 0 then Some(FrontPart(t, max)) else None);
      assert t == Slot(rest.tail) + BackPart(t, max);
      ConcatAssoc(Slot(b.head) + Flatten(b.bufs), Slot(rest.tail), BackPart(t, max));
      Taken(Some(BackPart(t, max)), rest)
  }

  function BackOfSingleton<T>(it: Iter<T>, max: Option<nat>): (r: Taken<T>)
    requires it.Singleton?
    ensures Valid(r.rest) && View(it) == View(r.rest) + Slot(r.slice)
    ensures r.slice.None? <==> View(it) == []
  {
    var t := Slot(it.slice);
    if |t| == 0 then Taken(None, Singleton(None))
    else
      assert t == FrontPart(t, max) + BackPart(t, max);
      Taken(Some(BackPart(t, max)), Singleton(Some(FrontPart(t, max))))
  }

  /** `next_back_slice`. */
  function NextBackSlice<T>(it: Iter<T>, max: Option<nat>): (r: Taken<T>)
    requires Valid(it)
    ensures Valid(r.rest) && View(it) == View(r.rest) + Slot(r.slice)
    ensures r.slice.None? <==> View(it) == []
  {
    match it
    case Buffers(_, _, _) => BackOfBuffers(it, max)
    case Singleton(_) => BackOfSingleton(it, max)
    case Chain(iter0, iter1) =>
      if iter1.Some? then
        var t := NextBackSlice(iter1.value, max);
        if t.slice.Some? then
          ConcatAssoc(OptView(iter0), View(t.rest), t.slice.value);
          Taken(t.slice, Chain(iter0, Some(t.rest)))
        else BackOfFirst(iter0, max)
      else BackOfFirst(iter0, max)
  }
  function BackOfFirst<T>(iter0: Option<Iter<T>>, max: Option<nat>): (r: Taken<T>)
    requires iter0.Some? ==> Valid(iter0.value)
    ensures Valid(r.rest) && OptView(iter0) == View(r.rest) + Slot(r.slice)
    ensures r.slice.None? <==> OptView(iter0) == []
  {
    if iter0.None? then Taken(None, Chain(None, None))
    else
      var t := NextBackSlice(iter0.value, max);
      Taken(t.slice, Chain(if t.slice.Some? then Some(t.rest) else None, None))
  }

  // ---- any interleaving ----

  datatype End = Front | Back
  datatype Request = Request(end: End, max: Option<nat>)

  /** Everything taken from the front, what is left, and everything taken from the
      back, the last piece first. */
  function TakeAll<T>(it: Iter<T>, reqs: seq<Request>): (r: (seq<T>, Iter<T>, seq<T>))
    requires Valid(it)
    decreases |reqs|
  {
    if reqs == [] then ([], it, [])
    else if reqs[0].end == Front then
      var t := NextSlice(it, reqs[0].max);
      var (f, rest, b) := TakeAll(t.rest, reqs[1..]);
      (Slot(t.slice) + f, rest, b)
    else
      var t := NextBackSlice(it, reqs[0].max);
      var (f, rest, b) := TakeAll(t.rest, reqs[1..]);
      (f, rest, b + Slot(t.slice))
  }

  /** Conservation: under any interleaving of takes from both ends, the front
      pieces, what is left and the back pieces make up the original. */
  lemma {:induction false} NothingLost<T>(it: Iter<T>, reqs: seq<Request>)
    requires Valid(it)
    ensures var (f, rest, b) := TakeAll(it, reqs); View(it) == f + View(rest) + b
    decreases |reqs|
  {
    if reqs != [] {
      var t := if reqs[0].end == Front then NextSlice(it, reqs[0].max) else NextBackSlice(it, reqs[0].max);
      NothingLost(t.rest, reqs[1..]);
      var (f, rest, b) := TakeAll(t.rest, reqs[1..]);
      var s := Slot(t.slice);
      if reqs[0].end == Front {
        ConcatAssoc(s, f + View(rest), b);
        ConcatAssoc(s, f, View(rest));
      } else {
        ConcatAssoc(f + View(rest), b, s);
      }
    }
  }

  // ---- walking ----

  function NonEmpty<T>(bufs: seq<seq<T>>): seq<seq<T>> {
    if bufs == [] then []
    else if |bufs[0]| == 0 then NonEmpty(bufs[1..])
    else [bufs[0]] + NonEmpty(bufs[1..])
  }
  function OptSlice<T>(slice: Option<seq<T>>): seq<seq<T>> {
    if |Slot(slice)| == 0 then [] else [slice.value]
  }

  /** The slices `for_each` visits. */
  function Walk<T>(it: Iter<T>): seq<seq<T>> {
    match it
    case Buffers(head, bufs, tail) => OptSlice(head) + NonEmpty(bufs) + OptSlice(tail)
    case Singleton(slice) => OptSlice(slice)
    case Chain(iter0, iter1) => OptWalk(iter0) + OptWalk(iter1)
  }
  function OptWalk<T>(it: Option<Iter<T>>): seq<seq<T>> { if it.Some? then Walk(it.value) else [] }

  /** The slices that repeated `next_slice(None)` yields. */
  function Drain<T>(it: Iter<T>): seq<seq<T>>
    requires Valid(it)
    decreases |View(it)|
  {
    var t := NextSlice(it, None);
    if t.slice.None? then []
    else
      NextSliceLength(it, None);
      [t.slice.value] + Drain(t.rest)
  }

  lemma HeadWalk<T>(h: seq<T>, bufs: seq<seq<T>>, tail: Option<seq<T>>)
    requires |h| > 0
    ensures Walk(Buffers(Some(h), bufs, tail)) == [h] + Walk(Buffers(None, bufs, tail))
  {
    ConcatAssoc([h], NonEmpty(bufs), OptSlice(tail));
    assert Walk(Buffers(None, bufs, tail)) == NonEmpty(bufs) + OptSlice(tail);
  }

  /** What is left of a slice to visit after a piece has been taken. */
  function Remainder<T>(w: seq<T>, max: Option<nat>): seq<seq<T>> {
    if |TailPart(w, max)| > 0 then [TailPart(w, max)] else []
  }

  /** A take cuts its piece off the first slice of the walk, and leaves the rest. */
  ghost predicate CutsWalk<T>(it: Iter<T>, max: Option<nat>)
    requires Valid(it)
  {
    var t, w := NextSlice(it, max), Walk(it);
    if t.slice.None? then w == []
    else |w| > 0 && t.slice.value == HeadPart(w[0], max) && Walk(t.rest) == Remainder(w[0], max) + w[1..]
  }

  lemma BuffersCutsWalk<T>(it: Iter<T>, max: Option<nat>)
    requires it.Buffers? && Valid(it)
    ensures CutsWalk(it, max)
  {
    RefilledWalk(it);
    var b := Refilled(it);
    if b.head.Some? {
      var h := b.head.value;
      HeadWalk(h, b.bufs, b.tail);
      if |TailPart(h, max)| > 0 { HeadWalk(TailPart(h, max), b.bufs, b.tail); }
    }
  }

  lemma CutsFirst<T>(w0: seq<seq<T>>, w1: seq<seq<T>>, rem: seq<seq<T>>)
    requires |w0| > 0
    ensures (w0 + w1)[0] == w0[0] && rem + (w0 + w1)[1..] == (rem + w0[1..]) + w1
  {
  }

  lemma SingletonCutsWalk<T>(it: Iter<T>, max: Option<nat>)
    requires it.Singleton?
    ensures CutsWalk(it, max)
  {
  }

  lemma SecondCutsWalk<T>(iter1: Option<Iter<T>>, max: Option<nat>)
    requires iter1.Some? ==> Valid(iter1.value) && CutsWalk(iter1.value, max)
    ensures var t, w := NextOfSecond(iter1, max), OptWalk(iter1);
            if t.slice.None? then w == []
            else |w| > 0 && t.slice.value == HeadPart(w[0], max) && Walk(t.rest) == Remainder(w[0], max) + w[1..]
  {
    if iter1.Some? {
      var t := NextSlice(iter1.value, max);
      assert Walk(Chain(None, Some(t.rest))) == [] + Walk(t.rest) == Walk(t.rest);
    }
  }

  lemma FirstCutsWalk<T>(i0: Iter<T>, iter1: Option<Iter<T>>, max: Option<nat>)
    requires Valid(i0) && (iter1.Some? ==> Valid(iter1.value)) && CutsWalk(i0, max) && View(i0) != []
    ensures CutsWalk(Chain(Some(i0), iter1), max)
  {
    var t, w := NextSlice(i0, max), Walk(i0);
    var it := Chain(Some(i0), iter1);
    assert NextSlice(it, max) == Taken(t.slice, Chain(Some(t.rest), iter1));
    assert Walk(it) == w + OptWalk(iter1) && Walk(Chain(Some(t.rest), iter1)) == Walk(t.rest) + OptWalk(iter1);
    CutsFirst(w, OptWalk(iter1), Remainder(w[0], max));
  }

  lemma ChainCutsWalk<T>(it: Iter<T>, max: Option<nat>)
    requires it.Chain? && Valid(it)
    requires it.iter0.Some? ==> CutsWalk(it.iter0.value, max)
    requires it.iter1.Some? ==> CutsWalk(it.iter1.value, max)
    ensures CutsWalk(it, max)
  {
    if it.iter0.Some? && View(it.iter0.value) != [] {
      FirstCutsWalk(it.iter0.value, it.iter1, max);
    } else {
      SecondCutsWalk(it.iter1, max);
      assert NextSlice(it, max) == NextOfSecond(it.iter1, max);
      assert Walk(it) == [] + OptWalk(it.iter1) == OptWalk(it.iter1);
    }
  }

  lemma {:induction false} TakeCutsWalk<T>(it: Iter<T>, max: Option<nat>)
    requires Valid(it)
    ensures CutsWalk(it, max)
  {
    match it
    case Buffers(_, _, _) => BuffersCutsWalk(it, max);
    case Singleton(_) => SingletonCutsWalk(it, max);
    case Chain(iter0, iter1) =>
      if iter0.Some? { TakeCutsWalk(iter0.value, max); }
      if iter1.Some? { TakeCutsWalk(iter1.value, max); }
      ChainCutsWalk(it, max);
  }

  lemma WalkStep<T>(it: Iter<T>)
    requires Valid(it)
    ensures var t := NextSlice(it, None);
            Walk(it) == if t.slice.None? then [] else [t.slice.value] + Walk(t.rest)
  {
    TakeCutsWalk(it, None);
    if Walk(it) != [] { TakesWhole(Walk(it)); }
  }

  lemma TakesWhole<T>(w: seq<seq<T>>)
    requires |w| > 0
    ensures [HeadPart(w[0], None)] + (Remainder(w[0], None) + w[1..]) == w
  {
    assert HeadPart(w[0], None) == w[0];
  }

  lemma RefilledWalk<T>(it: Iter<T>)
    requires it.Buffers? && Valid(it)
    ensures Walk(Refilled(it)) == Walk(it)
  {
    if it.head.None? { RefillWalk(it.bufs, it.tail); }
  }
  lemma {:induction false} RefillWalk<T>(bufs: seq<seq<T>>, tail: Option<seq<T>>)
    requires tail.Some? ==> |tail.value| > 0
    ensures Walk(Refill(bufs, tail)) == NonEmpty(bufs) + OptSlice(tail)
  {
    if bufs != [] && |bufs[0]| == 0 { RefillWalk(bufs[1..], tail); }
  }

  /** A walk sees exactly the slices that taking them one by one would yield. */
  lemma {:induction false} WalkIsDrain<T>(it: Iter<T>)
    requires Valid(it)
    ensures Walk(it) == Drain(it) && Flatten(Walk(it)) == View(it)
    decreases |View(it)|
  {
    WalkStep(it);
    var t := NextSlice(it, None);
    if t.slice.Some? {
      NextSliceLength(it, None);
      WalkIsDrain(t.rest);
    }
  }

  /** `total_len`. */
  method TotalLen<T>(it: Iter<T>) returns (l: nat)
    requires Valid(it)
    ensures l == |View(it)|
  {
    WalkIsDrain(it);
    l := 0;
    var slices := Walk(it);
    for i := 0 to |slices|
      invariant l + |Flatten(slices[i..])| == |View(it)|
    {
      assert slices[i..][1..] == slices[i + 1..];
      l := l + |slices[i]|;
    }
  }
}
