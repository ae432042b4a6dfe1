/** In-place application of an index permutation by following its cycles
    (utils-common/src/index_permutation.rs).

    Progress is tracked in the permutation itself: the topmost bit of a 64-bit
    index marks an entry as handled. */
module IndexPermutation {

  type usize = x: nat | x < 0x1_0000_0000_0000_0000

  /** The mark, `1usize << (usize::BITS - 1)`. */
  const HANDLED: usize := 0x8000_0000_0000_0000

  predicate IsHandled(i: usize) { HANDLED <= i }

  /** `i | handled_offset` and `i & !handled_offset`. */
  function Mark(i: usize): usize { if IsHandled(i) then i else i + HANDLED }
  function Unmark(i: usize): usize { if IsHandled(i) then i - HANDLED else i }

  /** Every index up to the length appears exactly once. */
  ghost predicate IsPermutation(p: seq<usize>) {
    && (forall i :: 0 <= i < |p| ==> p[i] < |p|)
    && (forall i, j :: 0 <= i < j < |p| ==> p[i] != p[j])
  }

  ghost predicate AreInverse(p: seq<usize>, q: seq<usize>) {
    && |p| == |q|
    && (forall i :: 0 <= i < |p| ==> p[i] < |q| && q[p[i]] == i)
    && (forall i :: 0 <= i < |q| ==> q[i] < |p| && p[q[i]] == i)
  }

  /** The documented effect: `result[i] = s[p[i]]`. */
  ghost function Permuted<T>(s: seq<T>, p: seq<usize>): seq<T>
    requires |s| == |p| && IsPermutation(p)
  {
    seq(|s|, i requires 0 <= i < |s| => s[p[i]])
  }

  /** Whatever has an inverse is a permutation, and so is the inverse. */
  lemma InverseIsPermutation(p: seq<usize>, q: seq<usize>)
    requires AreInverse(p, q)
    ensures IsPermutation(p) && IsPermutation(q)
  {
    assert forall i, j :: 0 <= i < j < |p| ==> q[p[i]] == i && q[p[j]] == j;
    assert forall i, j :: 0 <= i < j < |q| ==> p[q[i]] == i && p[q[j]] == j;
  }

  /** Applying a permutation and then its inverse restores the sequence. */
  lemma PermuteInverseCancels<T>(s: seq<T>, p: seq<usize>, q: seq<usize>)
    requires |s| == |p| && AreInverse(p, q)
    ensures IsPermutation(p) && IsPermutation(q)
    ensures Permuted(Permuted(s, p), q) == s
  {
    InverseIsPermutation(p, q);
  }

  /** A sequence has at most one inverse. */
  lemma InverseIsUnique(p: seq<usize>, q: seq<usize>, r: seq<usize>)
    requires AreInverse(p, q) && AreInverse(p, r)
    ensures q == r
  {
    assert forall i :: 0 <= i < |q| ==> r[p[q[i]]] == q[i];
  }

  // ---- progress of the cycle walk ----

  ghost predicate Marked(p: seq<usize>, i: int) requires 0 <= i < |p| { IsHandled(p[i]) }

  /** The entries not yet handled. */
  ghost function Unhandled(p: seq<usize>): set<int> {
    set i | 0 <= i < |p| && !IsHandled(p[i])
  }

  /** The first `n` entries need no more work. */
  ghost predicate Settled(p0: seq<usize>, p: seq<usize>, n: int) requires |p0| == |p| {
    forall i :: 0 <= i < n && i < |p| ==> i !in Unhandled(p) || p0[i] == i
  }

  /** What an entry of the working permutation holds: an unhandled one the
      original value, a handled one the marked original value (plain variant) or
      the marked inverse value (inverting variant). */
  ghost predicate EntryOk(p0: seq<usize>, p: seq<usize>, invert: bool, i: int)
    requires |p0| == |p| && 0 <= i < |p|
  {
    if !IsHandled(p[i]) then p[i] == p0[i]
    else if !invert then p[i] == p0[i] + HANDLED
    else p[i] < HANDLED + |p| && p0[p[i] - HANDLED] == i
  }

  /** A handled position holds its final element, any other its original one. */
  ghost predicate DataOk<T>(p0: seq<usize>, a0: seq<T>, p: seq<usize>, a: seq<T>, i: int)
    requires |p0| == |p| == |a0| == |a| && IsPermutation(p0) && 0 <= i < |p|
  {
    a[i] == if IsHandled(p[i]) then a0[p0[i]] else a0[i]
  }

  /** Between cycles the handled entries are a union of cycles. */
  ghost predicate BetweenCycles<T>(p0: seq<usize>, a0: seq<T>, p: seq<usize>, a: seq<T>, invert: bool) {
    && |p0| == |p| == |a0| == |a| < HANDLED && IsPermutation(p0)
    && (forall i :: 0 <= i < |p| ==> EntryOk(p0, p, invert, i))
    && (forall i {:trigger p0[i]} :: 0 <= i < |p| ==> (Marked(p, p0[i]) <==> Marked(p, i)))
    && (forall i :: 0 <= i < |p| ==> DataOk(p0, a0, p, a, i))
  }

  /** Inside the cycle through `start`, about to handle `to`: exactly the
      positions visited so far, except `from`, have a handled image, and `from`
      temporarily holds the element that belongs to the end of the cycle. */
  ghost predicate InCycle<T>(p0: seq<usize>, a0: seq<T>, p: seq<usize>, a: seq<T>, invert: bool,
                             start: nat, from: nat, to: nat)
  {
    && |p0| == |p| == |a0| == |a| < HANDLED && IsPermutation(p0)
    && start < |p| && from < |p| && to == p0[from]
    && !Marked(p, start)
    && (from == start || Marked(p, from))
    && (forall i :: 0 <= i < |p| ==> EntryOk(p0, p, invert, i))
    && (forall i {:trigger p0[i]} :: 0 <= i < |p| ==>
          (Marked(p, p0[i]) <==> (Marked(p, i) || i == start) && i != from))
    && a[from] == a0[start]
    && (forall i :: 0 <= i < |p| && i != from && i != start ==> DataOk(p0, a0, p, a, i))
    && (from != start ==> a[start] == a0[p0[start]])
  }

  /** The value a handled entry gets: `next_to` or `from`, marked. */
  function HandledEntry(invert: bool, from: usize, nextTo: usize): usize {
    Mark(if invert then from else nextTo)
  }

  /** An unhandled non-fixed entry starts a cycle nothing of which is handled. */
  lemma EnterCycle<T>(p0: seq<usize>, a0: seq<T>, p: seq<usize>, a: seq<T>, invert: bool, start: nat)
    requires BetweenCycles(p0, a0, p, a, invert) && start < |p| && !Marked(p, start)
    ensures InCycle(p0, a0, p, a, invert, start, start, p[start])
  {
    assert EntryOk(p0, p, invert, start) && DataOk(p0, a0, p, a, start);
  }

  /** The next position of a cycle is never one handled before. */
  lemma NextIsUnhandled<T>(p0: seq<usize>, a0: seq<T>, p: seq<usize>, a: seq<T>, invert: bool,
                           start: nat, from: nat, to: nat)
    requires InCycle(p0, a0, p, a, invert, start, from, to)
    ensures to < |p| && !Marked(p, to) && p[to] == p0[to]
  {
    assert EntryOk(p0, p, invert, to);
  }

  /** Handling `to` in the middle of a cycle moves the walk one step on. */
  lemma StepInCycle<T>(p0: seq<usize>, a0: seq<T>, p: seq<usize>, a: seq<T>, invert: bool,
                       start: nat, from: nat, to: nat, p': seq<usize>, a': seq<T>)
    requires InCycle(p0, a0, p, a, invert, start, from, to) && to < |p| && to != start
    requires p' == p[to := HandledEntry(invert, from, p[to])]
    requires a' == a[from := a[to]][to := a[from]]
    ensures InCycle(p0, a0, p', a', invert, start, to, p[to])
    ensures Unhandled(p') < Unhandled(p)
  {
    NextIsUnhandled(p0, a0, p, a, invert, start, from, to);
    StepEntries(p0, a0, p, a, invert, start, from, to, p');
    assert to != from;
    assert DataOk(p0, a0, p, a, to);
    forall i | 0 <= i < |p| && i != to && i != start
      ensures DataOk(p0, a0, p', a', i)
    {
      if i != from { assert DataOk(p0, a0, p, a, i); }
    }
  }

  /** Handling the start of a cycle completes it. */
  lemma CloseCycle<T>(p0: seq<usize>, a0: seq<T>, p: seq<usize>, a: seq<T>, invert: bool,
                      start: nat, from: nat, p': seq<usize>)
    requires InCycle(p0, a0, p, a, invert, start, from, start)
    requires p' == p[start := HandledEntry(invert, from, p[start])]
    ensures BetweenCycles(p0, a0, p', a, invert)
    ensures Unhandled(p') < Unhandled(p)
  {
    NextIsUnhandled(p0, a0, p, a, invert, start, from, start);
    StepEntries(p0, a0, p, a, invert, start, from, start, p');
    forall i | 0 <= i < |p|
      ensures DataOk(p0, a0, p', a, i)
    {
      if i != from && i != start { assert DataOk(p0, a0, p, a, i); }
    }
  }

  /** The image of a handled entry is handled, and leads back to it if inverting. */
  lemma ImageOfHandled<T>(p0: seq<usize>, a0: seq<T>, p: seq<usize>, a: seq<T>, invert: bool, i: nat)
    requires BetweenCycles(p0, a0, p, a, invert) && i < |p| && Marked(p, i)
    ensures Marked(p, p0[i]) && (invert ==> p[p0[i]] == Mark(i))
  {
    assert EntryOk(p0, p, invert, p0[i]);
  }

  /** All that is not handled at the end is in its place. */
  lemma RestIsFixed<T>(p0: seq<usize>, a0: seq<T>, p: seq<usize>, a: seq<T>, invert: bool)
    requires BetweenCycles(p0, a0, p, a, invert) && Settled(p0, p, |p|)
    ensures forall i :: 0 <= i < |p| ==> IsHandled(p[i]) || p[i] == i
  {
    forall i | 0 <= i < |p| ensures IsHandled(p[i]) || p[i] == i { assert EntryOk(p0, p, invert, i); }
  }

  /** The bookkeeping both kinds of step share. */
  lemma StepEntries<T>(p0: seq<usize>, a0: seq<T>, p: seq<usize>, a: seq<T>, invert: bool,
                       start: nat, from: nat, to: nat, p': seq<usize>)
    requires InCycle(p0, a0, p, a, invert, start, from, to) && to < |p|
    requires p' == p[to := HandledEntry(invert, from, p[to])]
    ensures forall i :: 0 <= i < |p| ==> EntryOk(p0, p', invert, i)
    ensures forall i {:trigger p0[i]} :: 0 <= i < |p| ==> (Marked(p', p0[i]) <==> Marked(p, i) || i == start)
    ensures Unhandled(p') < Unhandled(p)
  {
    NextIsUnhandled(p0, a0, p, a, invert, start, from, to);
    forall i | 0 <= i < |p| ensures EntryOk(p0, p', invert, i) { assert EntryOk(p0, p, invert, i); }
    assert to in Unhandled(p) && to !in Unhandled(p');
    assert forall i | i in Unhandled(p') :: i in Unhandled(p);
  }

  /** Once every entry is handled or a fixed point, clearing the marks leaves the
      original permutation or its inverse, and the permuted data. */
  lemma Finish<T>(p0: seq<usize>, a0: seq<T>, p: seq<usize>, a: seq<T>, invert: bool, r: seq<usize>)
    requires BetweenCycles(p0, a0, p, a, invert)
    requires Settled(p0, p, |p|)
    requires |r| == |p| && forall i :: 0 <= i < |p| ==> r[i] == Unmark(p[i])
    ensures a == Permuted(a0, p0)
    ensures if invert then AreInverse(p0, r) else r == p0
  {
    forall i | 0 <= i < |p| ensures a[i] == Permuted(a0, p0)[i] {
      assert DataOk(p0, a0, p, a, i) && EntryOk(p0, p, invert, i);
    }
    forall i | 0 <= i < |p| ensures if invert then r[i] < |p| && p0[r[i]] == i else r[i] == p0[i] {
      assert EntryOk(p0, p, invert, i);
    }
    if invert {
      assert forall i :: 0 <= i < |p| ==> p0[r[p0[i]]] == p0[i];
    }
  }

  // ---- the two in-place algorithms ----

  /** The search both functions start a cycle with: the first entry at or after
      `begin` that is neither handled nor a fixed point. */
  method FindCycle<T>(perm: array<usize>, begin: nat, ghost p0: seq<usize>, ghost a0: seq<T>,
                      ghost a: seq<T>, ghost invert: bool) returns (start: nat)
    requires BetweenCycles(p0, a0, perm[..], a, invert)
    requires begin <= perm.Length && Settled(p0, perm[..], begin)
    ensures begin <= start <= perm.Length && Settled(p0, perm[..], start)
    ensures start < perm.Length ==> !IsHandled(perm[start]) && p0[start] != start
  {
    start := begin;
    while start < perm.Length
      invariant begin <= start <= perm.Length && Settled(p0, perm[..], start)
    {
      var i := perm[start];
      assert EntryOk(p0, perm[..], invert, start);
      if !IsHandled(i) {
        assert !Marked(perm[..], p0[start]) && EntryOk(p0, perm[..], invert, p0[start]);
        if i != perm[i] { return; }
        assert p0[i] == p0[start];
      }
      start := start + 1;
    }
  }

  /** `apply_and_invert_index_perm`. */
  method ApplyAndInvertIndexPerm<T>(perm: array<usize>, applyTo: array<T>)
    requires perm.Length == applyTo.Length < HANDLED && IsPermutation(perm[..])
    requires perm as object != applyTo as object
    modifies perm, applyTo
    ensures applyTo[..] == Permuted(old(applyTo[..]), old(perm[..]))
    ensures AreInverse(old(perm[..]), perm[..])
  {
    CycleWalk(perm, applyTo, true);
  }

  /** `apply_index_perm`. */
  method ApplyIndexPerm<T>(perm: array<usize>, applyTo: array<T>)
    requires perm.Length == applyTo.Length < HANDLED && IsPermutation(perm[..])
    requires perm as object != applyTo as object
    modifies perm, applyTo
    ensures applyTo[..] == Permuted(old(applyTo[..]), old(perm[..]))
    ensures perm[..] == old(perm[..])
  {
    CycleWalk(perm, applyTo, false);
  }

  /** The loops of both functions, which differ only in what they store in a
      handled entry. */
  method CycleWalk<T>(perm: array<usize>, applyTo: array<T>, invert: bool)
    requires perm.Length == applyTo.Length < HANDLED && IsPermutation(perm[..])
    requires perm as object != applyTo as object
    modifies perm, applyTo
    ensures applyTo[..] == Permuted(old(applyTo[..]), old(perm[..]))
    ensures if invert then AreInverse(old(perm[..]), perm[..]) else perm[..] == old(perm[..])
  {
    ghost var p0, a0 := perm[..], applyTo[..];
    HandleCycles(perm, applyTo, invert, p0, a0);
    ghost var marked := perm[..];
    RestIsFixed(p0, a0, marked, applyTo[..], invert);
    assert forall i :: 0 <= i < perm.Length ==> IsHandled(perm[i]) || perm[i] == i;
    ClearMarks(perm);
    Finish(p0, a0, marked, applyTo[..], invert, perm[..]);
  }

  /** The outer loop, cycle after cycle. */
  method HandleCycles<T>(perm: array<usize>, applyTo: array<T>, invert: bool, ghost p0: seq<usize>, ghost a0: seq<T>)
    requires BetweenCycles(p0, a0, perm[..], applyTo[..], invert) && Settled(p0, perm[..], 0)
    requires perm as object != applyTo as object
    modifies perm, applyTo
    ensures BetweenCycles(p0, a0, perm[..], applyTo[..], invert) && Settled(p0, perm[..], perm.Length)
  {
    var cycleStart := FindCycle(perm, 0, p0, a0, applyTo[..], invert);
    while cycleStart < perm.Length
      invariant 0 <= cycleStart <= perm.Length
      invariant BetweenCycles(p0, a0, perm[..], applyTo[..], invert) && Settled(p0, perm[..], cycleStart)
      invariant cycleStart < perm.Length ==> !IsHandled(perm[cycleStart])
      decreases Unhandled(perm[..])
    {
      WalkOneCycle(perm, applyTo, invert, cycleStart, p0, a0);
      cycleStart := FindCycle(perm, cycleStart + 1, p0, a0, applyTo[..], invert);
    }
  }

  /** The final loop over `index_perm`. */
  method ClearMarks(perm: array<usize>)
    modifies perm
    ensures forall j :: 0 <= j < perm.Length ==> perm[j] == Unmark(old(perm[j]))
  {
    for i := 0 to perm.Length
      invariant forall j :: 0 <= j < perm.Length ==> perm[j] == if j < i then Unmark(old(perm[j])) else old(perm[j])
    {
      perm[i] := Unmark(perm[i]);
    }
  }

  /** The inner loop: follow one cycle from its start until it closes. */
  method WalkOneCycle<T>(perm: array<usize>, applyTo: array<T>, invert: bool, cycleStart: nat,
                         ghost p0: seq<usize>, ghost a0: seq<T>)
    requires BetweenCycles(p0, a0, perm[..], applyTo[..], invert)
    requires cycleStart < perm.Length && !IsHandled(perm[cycleStart])
    requires perm as object != applyTo as object
    modifies perm, applyTo
    ensures BetweenCycles(p0, a0, perm[..], applyTo[..], invert)
    ensures Unhandled(perm[..]) < old(Unhandled(perm[..]))
    ensures cycleStart !in Unhandled(perm[..])
  {
    EnterCycle(p0, a0, perm[..], applyTo[..], invert, cycleStart);
    var from := cycleStart;
    var to := perm[from];
    while true
      invariant InCycle(p0, a0, perm[..], applyTo[..], invert, cycleStart, from, to)
      invariant Unhandled(perm[..]) <= old(Unhandled(perm[..]))
      decreases Unhandled(perm[..])
    {
      ghost var p, a := perm[..], applyTo[..];
      NextIsUnhandled(p0, a0, p, a, invert, cycleStart, from, to);
      assert !IsHandled(perm[to]);
      var nextTo := perm[to];
      perm[to] := HandledEntry(invert, from, nextTo);
      if to == cycleStart {
        CloseCycle(p0, a0, p, a, invert, cycleStart, from, perm[..]);
        ImageOfHandled(p0, a0, perm[..], applyTo[..], invert, cycleStart);
        assert if invert then perm[nextTo] == Mark(cycleStart) else IsHandled(perm[nextTo]);
        return;
      }
      applyTo[from], applyTo[to] := applyTo[to], applyTo[from];
      StepInCycle(p0, a0, p, a, invert, cycleStart, from, to, perm[..], applyTo[..]);
      from := to;
      to := nextTo;
    }
  }

  /** Running apply-and-invert a second time restores both arrays. */
  method ApplyAndInvertTwice<T>(perm: array<usize>, applyTo: array<T>)
    requires perm.Length == applyTo.Length < HANDLED && IsPermutation(perm[..])
    requires perm as object != applyTo as object
    modifies perm, applyTo
    ensures perm[..] == old(perm[..]) && applyTo[..] == old(applyTo[..])
  {
    ghost var p0, a0 := perm[..], applyTo[..];
    ApplyAndInvertIndexPerm(perm, applyTo);
    ghost var q := perm[..];
    InverseIsPermutation(p0, q);
    ApplyAndInvertIndexPerm(perm, applyTo);
    PermuteInverseCancels(a0, p0, q);
    InverseIsUnique(q, p0, perm[..]);
  }
}
