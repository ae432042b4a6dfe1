/** What the consumers of scatter-gather iterators rely on: the traits
    `IoSlicesIterCommon`, `IoSlicesIter` and `IoSlicesMutIter`
    (utils-common/src/io_slices.rs), and that the iterators implement them. */
module SliceAccess {
  import opened Results
  import opened IoSlices

  /** An implementation of the traits for iterators `I`: its operations, and, for
      stating what they do, what an iterator has left and how often it may still
      hand out nothing before it is exhausted. */
  datatype Access<!I, T> = Access(
    len: I -> nat, isEmpty: I -> bool, next: (I, Option<nat>) -> (Option<seq<T>>, I),
    view: I -> seq<T>, links: I -> nat)

  /** `v` is `s` followed by `w`. */
  ghost predicate Splits<T>(v: seq<T>, s: seq<T>, w: seq<T>) { if |s| == 0 then w == v else v == s + w }

  /** The promises of `next_slice_len` and `next_slice`. */
  ghost predicate Promises<I, T>(a: Access<I, T>, it: I, max: Option<nat>) {
    var (slice, rest) := a.next(it, max);
    && a.len(it) <= |a.view(it)|
    && Splits(a.view(it), Slot(slice), a.view(rest))
    && (slice.None? <==> a.view(it) == [])
    && (slice.Some? ==>
          && (max.Some? ==> |slice.value| <= max.value)
          && Bounded(max, a.len(it)) <= |slice.value|
          && (max != Some(0) ==> |slice.value| > 0)
          && a.links(rest) <= a.links(it)
          && (a.len(it) == 0 ==> a.links(rest) < a.links(it))
          && (max == Some(0) ==> a.len(rest) > 0))
  }

  /** An exhausted iterator is empty, and one that reports a length is not. */
  ghost predicate IsAccess<I(!new), T>(a: Access<I, T>) {
    && (forall it, max {:trigger a.next(it, max)} :: Promises(a, it, max))
    && (forall it {:trigger a.isEmpty(it)} :: (a.view(it) == [] ==> a.isEmpty(it)) && (a.isEmpty(it) ==> a.len(it) == 0))
  }

  /** `is_empty` tells whether anything is left. */
  ghost predicate Accurate<I(!new), T>(a: Access<I, T>) {
    forall it {:trigger a.isEmpty(it)} :: a.isEmpty(it) <==> a.view(it) == []
  }

  /** `next_slice_len` does not hide anything: a take of no length just before sees to
      that. */
  ghost predicate Settled<I, T>(a: Access<I, T>, it: I) { a.view(it) == [] || a.len(it) > 0 }

  /** Where nothing is hidden, `is_empty` is right, also through a reference. */
  lemma SettledIsRight<I(!new), T>(a: Access<I, T>, it: I)
    requires IsAccess(a) && Settled(a, it)
    ensures a.isEmpty(it) <==> a.view(it) == []
  {
  }

  // ---- runs of takes ----

  ghost predicate Closed<I(!new), T>(a: Access<I, T>, on: I -> bool) {
    forall it, max {:trigger a.next(it, max)} :: on(it) ==> on(a.next(it, max).1)
  }

  /** `to` comes from `from` by a series of takes: whatever every take keeps is kept. */
  ghost predicate Reachable<I(!new), T>(a: Access<I, T>, from: I, to: I) {
    forall on: I -> bool {:trigger Closed(a, on)} :: Closed(a, on) && on(from) ==> on(to)
  }

  lemma ReachTake<I(!new), T>(a: Access<I, T>, from: I, to: I, max: Option<nat>)
    requires Reachable(a, from, to)
    ensures Reachable(a, from, a.next(to, max).1)
  {
  }

  lemma ReachOn<I(!new), T>(a: Access<I, T>, from: I, via: I, to: I)
    requires Reachable(a, from, via) && Reachable(a, via, to)
    ensures Reachable(a, from, to)
  {
  }

  // ---- the iterators ----

  type SliceIter<T> = it: Iter<T> | Valid(it) witness Singleton(None)

  function IterNext<T>(it: SliceIter<T>, max: Option<nat>): (Option<seq<T>>, SliceIter<T>) {
    var t := NextSlice(it, max);
    (t.slice, t.rest)
  }

  function Iters<T>(): Access<SliceIter<T>, T> {
    Access((it: SliceIter<T>) => NextSliceLen(it), (it: SliceIter<T>) => IsEmpty(it),
           (it: SliceIter<T>, max: Option<nat>) => IterNext(it, max),
           (it: SliceIter<T>) => View(it), (it: SliceIter<T>) => Links(it))
  }

  /** `is_empty` as the iterators define it. */
  function IsEmpty<T>(it: Iter<T>): (e: bool)
    requires Valid(it)
    ensures e <==> View(it) == []
  {
    match it
    case Chain(iter0, iter1) =>
      (if iter0.Some? then IsEmpty(iter0.value) else true) && (if iter1.Some? then IsEmpty(iter1.value) else true)
    case _ => NextSliceLen(it) == 0
  }

  lemma ItersKeepPromises<T(!new)>()
    ensures IsAccess(Iters<T>()) && Accurate(Iters<T>())
  {
    var a := Iters<T>();
    forall it: SliceIter<T>, max ensures Promises(a, it, max) {
      if View(it) != [] {
        NextSliceLength(it, max);
        NextSettles(it);
      }
    }
  }

  // ---- through a mutable reference ----

  /** The implementation for `&mut I`, which falls back on the default `is_empty`. */
  function ByRef<I, T>(a: Access<I, T>): Access<I, T> {
    a.(isEmpty := (it: I) => a.len(it) == 0)
  }

  lemma ByRefKeepsPromises<I(!new), T>(a: Access<I, T>)
    requires IsAccess(a)
    ensures IsAccess(ByRef(a))
  {
    var b := ByRef(a);
    forall it, max ensures Promises(b, it, max) { assert b.next(it, max) == a.next(it, max); assert Promises(a, it, max); }
    forall it | b.view(it) == [] ensures b.isEmpty(it) { assert a.next(it, None) == b.next(it, None) && Promises(a, it, None); }
  }

  /** The iterator whose slices come next: no chain. */
  function Leading<T>(it: Iter<T>): (l: Iter<T>)
    requires Valid(it)
    ensures Valid(l) && !l.Chain?
  {
    match it
    case Chain(iter0, iter1) =>
      if iter0.Some? then Leading(iter0.value)
      else if iter1.Some? then Leading(iter1.value)
      else Singleton(None)
    case _ => it
  }

  /** Through a reference, a chain passes for empty exactly if the iterator it is at
      is, whatever follows. */
  lemma {:induction false} ByRefIsEmpty<T>(it: Iter<T>)
    requires Valid(it)
    ensures NextSliceLen(it) == 0 <==> View(Leading(it)) == []
    ensures View(it) == [] ==> View(Leading(it)) == []
  {
    match it
    case Chain(iter0, iter1) =>
      if iter0.Some? { ByRefIsEmpty(iter0.value); }
      else if iter1.Some? { ByRefIsEmpty(iter1.value); }
    case _ =>
  }

  /** So the reference is right about an iterator exactly if the leading one has
      something left, or nothing is left at all. */
  lemma ByRefIsRight<T>(it: Iter<T>)
    requires Valid(it)
    ensures (NextSliceLen(it) == 0 <==> View(it) == []) <==> (View(it) == [] || View(Leading(it)) != [])
  {
    ByRefIsEmpty(it);
  }

  lemma ReferenceHidesBytes()
    ensures !Accurate(ByRef(Iters<int>()))
  {
    var first: Iter<int> := Singleton(Some([]));
    var it: SliceIter<int> := Chain(Some(first), Some(Singleton(Some([7]))));
    assert NextSliceLen(first) == 0 && View(it) == [7];
    assert ByRef(Iters<int>()).isEmpty(it);
  }
}
