/** The adaptor `IoSlicesIterTakeExact`, which covers a given number of bytes at the front
    of an iterator (utils-common/src/io_slices.rs). */
module TakeExact {
  import opened Results
  import opened IoSlices
  import opened SliceAccess
  import opened Layouts

  /** `IoSlicesIterTakeExact::next_slice`: no result stands for exhausted buffers. */
  function NextExact<I, T>(acc: Access<I, T>, it: I, remaining: nat, max: Option<nat>): (r: Option<(Option<seq<T>>, I, nat)>)
    requires Promises(acc, it, Some(Bounded(max, remaining)))
  {
    if remaining == 0 then Some((None, it, 0))
    else
      var (slice, rest) := acc.next(it, Some(Bounded(max, remaining)));
      if slice.None? then None else Some((slice, rest, remaining - |slice.value|))
  }

  lemma CutBehind<T>(v: seq<T>, s: seq<T>, w: seq<T>, n: nat)
    requires v == s + w && |s| <= n <= |v|
    ensures v[..n] == s + w[..n - |s|] && v[n..] == w[n - |s|..]
  {
  }

  /** What it covers is the front of the iterator below, slice by slice, and what it
      leaves there is exactly the rest; the buffers are exhausted only if there is
      less than was asked for. */
  lemma ExactStep<I, T>(acc: Access<I, T>, it: I, remaining: nat, max: Option<nat>)
    requires Promises(acc, it, Some(Bounded(max, remaining)))
    ensures var r := NextExact(acc, it, remaining, max);
            && (r.None? <==> remaining > 0 && acc.view(it) == [])
            && (r.Some? && remaining <= |acc.view(it)| ==>
                  var (slice, rest, left) := r.value;
                  && left <= |acc.view(rest)|
                  && acc.view(it)[..remaining] == Slot(slice) + acc.view(rest)[..left]
                  && acc.view(it)[remaining..] == acc.view(rest)[left..])
  {
    var (slice, rest) := acc.next(it, Some(Bounded(max, remaining)));
    if slice.Some? && 0 < remaining <= |acc.view(it)| {
      CutBehind(acc.view(it), slice.value, acc.view(rest), remaining);
    }
  }

  // ---- as an iterator ----

  /** The iterator below and what remains to be taken from it. */
  datatype Exact<I> = Exact(iter: I, remaining: nat)

  /** The iterator below has as much as was asked for. */
  predicate Enough<I, T>(acc: Access<I, T>, e: Exact<I>) { e.remaining <= |acc.view(e.iter)| }

  /** The operations of the adaptor, where there is enough; elsewhere it stands for an
      exhausted one. */
  function Exactly<I, T>(acc: Access<I, T>): Access<Exact<I>, T> {
    Access((e: Exact<I>) => ExactLen(acc, e),
           (e: Exact<I>) => !Enough(acc, e) || e.remaining == 0,
           (e: Exact<I>, max: Option<nat>) => ExactNext(acc, e, max),
           (e: Exact<I>) => if Enough(acc, e) then acc.view(e.iter)[..e.remaining] else [],
           (e: Exact<I>) => acc.links(e.iter))
  }
  function ExactLen<I, T>(acc: Access<I, T>, e: Exact<I>): nat {
    if Enough(acc, e) then Min(acc.len(e.iter), e.remaining) else 0
  }
  function ExactNext<I, T>(acc: Access<I, T>, e: Exact<I>, max: Option<nat>): (Option<seq<T>>, Exact<I>) {
    if !Enough(acc, e) || e.remaining == 0 then (None, e)
    else
      var (slice, rest) := acc.next(e.iter, Some(Bounded(max, e.remaining)));
      (slice, Exact(rest, if |Slot(slice)| <= e.remaining then e.remaining - |Slot(slice)| else 0))
  }

  /** With enough to begin with, there is enough after every take, no take reports
      exhausted buffers, and takes are those of the record. */
  lemma EnoughStays<I(!new), T>(acc: Access<I, T>, e: Exact<I>, max: Option<nat>)
    requires IsAccess(acc) && Enough(acc, e)
    ensures Promises(acc, e.iter, Some(Bounded(max, e.remaining)))
    ensures var r, (slice, rest) := NextExact(acc, e.iter, e.remaining, max), ExactNext(acc, e, max);
            r == Some((slice, rest.iter, rest.remaining)) && Enough(acc, rest)
  {
    var _ := acc.next(e.iter, Some(Bounded(max, e.remaining)));
    ExactStep(acc, e.iter, e.remaining, max);
  }

  lemma ExactPromises<I(!new), T>(acc: Access<I, T>, e: Exact<I>, max: Option<nat>)
    requires IsAccess(acc)
    ensures Promises(Exactly(acc), e, max)
  {
    if Enough(acc, e) {
      EnoughStays(acc, e, max);
      ExactStep(acc, e.iter, e.remaining, max);
    }
  }

  /** The adaptor keeps the promises of the traits where there is enough, and its
      `is_empty` is right even if the one of the iterator below is not. */
  lemma ExactKeepsPromises<I(!new), T>(acc: Access<I, T>)
    requires IsAccess(acc)
    ensures IsAccess(Exactly(acc)) && Accurate(Exactly(acc))
  {
    forall e: Exact<I>, max: Option<nat> ensures Promises(Exactly(acc), e, max) { ExactPromises(acc, e, max); }
  }

  // ---- walking ----

  lemma {:induction false} WalkHasNone<T>(it: Iter<T>)
    ensures NoneEmpty(Walk(it))
  {
    match it
    case Buffers(head, bufs, tail) => NonEmptyIs(bufs);
    case Singleton(_) =>
    case Chain(iter0, iter1) =>
      if iter0.Some? { WalkHasNone(iter0.value); }
      if iter1.Some? { WalkHasNone(iter1.value); }
  }

  /** `for_each`: it visits the front, whatever there is of it, and never reports
      exhausted buffers, so that `total_len`, which is what remains to be taken, agrees
      with it exactly if there is enough. */
  method ForEach<T>(it: Iter<T>, n: nat) returns (visited: seq<seq<T>>, exhausted: bool)
    requires Valid(it)
    ensures !exhausted && Flatten(visited) == View(it)[..Min(n, |View(it)|)]
    ensures n == |Flatten(visited)| <==> n <= |View(it)|
  {
    WalkIsDrain(it);
    WalkHasNone(it);
    var w, remaining, i := Walk(it), n, 0;
    visited, exhausted := [], false;
    assert w[0..] == w;
    while i < |w| && remaining > 0 && !exhausted
      invariant i <= |w| && !exhausted && Visiting(View(it), Flatten(visited), Flatten(w[i..]), n, remaining)
    {
      var m := Min(remaining, |w[i]|);
      if m == 0 {
        exhausted := true;
      } else {
        FlattenTwo(visited, w[i][..m]);
        assert w[i..][0] == w[i] && w[i..][1..] == w[i + 1..];
        VisitNext(View(it), Flatten(visited), w[i], Flatten(w[i + 1..]), n, remaining, m);
        visited, remaining, i := visited + [w[i][..m]], remaining - m, i + 1;
      }
    }
    assert i == |w| ==> Flatten(w[i..]) == [];
  }

  /** `x` has been visited, and `y` comes next unless that was enough. */
  ghost predicate Visiting<T>(v: seq<T>, x: seq<T>, y: seq<T>, n: nat, remaining: nat) {
    |x| + remaining == n && if remaining > 0 then v == x + y else n <= |v| && x == v[..n]
  }

  lemma VisitNext<T>(v: seq<T>, x: seq<T>, s: seq<T>, y: seq<T>, n: nat, remaining: nat, m: nat)
    requires Visiting(v, x, s + y, n, remaining) && remaining > 0 && m == Min(remaining, |s|)
    ensures Visiting(v, x + s[..m], y, n, remaining - m)
  {
    if m < remaining { assert s[..m] == s; }
  }

  lemma FlattenTwo<T>(visited: seq<seq<T>>, s: seq<T>)
    ensures Flatten(visited + [s]) == Flatten(visited) + s
  {
    FlattenConcat(visited, [s]);
    assert Flatten([s]) == s + Flatten([]);
  }
}
