/** Copying, xoring, comparing and skipping over scatter-gather iterators: the
    provided methods of the traits in utils-common/src/io_slices.rs. */
module IoSliceOps {
  import opened Results
  import opened Bytes
  import opened IoSlices
  import opened SliceMemory
  import opened SliceAccess

  /** An iterator that has `k` elements of the original view behind it. */
  ghost predicate Past<I, T>(acc: Access<I, T>, v: seq<T>, k: nat, it: I) {
    && k <= |v| && |acc.view(it)| == |v| - k
    && forall i {:trigger PastAt(acc, v, k, it, i)} :: PastAt(acc, v, k, it, i)
  }
  ghost predicate PastAt<I, T>(acc: Access<I, T>, v: seq<T>, k: nat, it: I, i: int)
    requires |acc.view(it)| == |v| - k
  {
    0 <= i < |v| - k ==> acc.view(it)[i] == v[k + i]
  }

  lemma PastIs<I, T>(acc: Access<I, T>, v: seq<T>, k: nat, it: I)
    ensures Past(acc, v, k, it) <==> k <= |v| && acc.view(it) == v[k..]
  {
    if Past(acc, v, k, it) {
      var w := acc.view(it);
      forall i | 0 <= i < |w| ensures w[i] == v[k + i] { assert PastAt(acc, v, k, it, i); }
    }
  }

  lemma PastStart<I, T>(acc: Access<I, T>, it: I)
    ensures Past(acc, acc.view(it), 0, it)
  {
    PastIs(acc, acc.view(it), 0, it);
  }

  lemma Advance<I, T>(acc: Access<I, T>, v: seq<T>, k: nat, it: I, s: seq<T>, rest: I)
    requires Past(acc, v, k, it) && Splits(acc.view(it), s, acc.view(rest))
    ensures Past(acc, v, k + |s|, rest) && forall i :: 0 <= i < |s| ==> s[i] == v[k + i]
  {
    forall i | 0 <= i < |s| ensures s[i] == v[k + i] { assert PastAt(acc, v, k, it, i) && acc.view(it)[i] == s[i]; }
    var k' := k + |s|;
    forall i ensures PastAt(acc, v, k', rest, i) {
      assert PastAt(acc, v, k, it, |s| + i);
      if 0 <= i < |acc.view(rest)| { assert acc.view(it)[|s| + i] == acc.view(rest)[i]; }
    }
  }

  lemma PastTwice<I, T>(acc: Access<I, T>, v: seq<T>, k: nat, it: I, n: nat, rest: I)
    requires Past(acc, v, k, it) && Past(acc, acc.view(it), n, rest)
    ensures Past(acc, v, k + n, rest)
  {
    var k' := k + n;
    forall i ensures PastAt(acc, v, k', rest, i) {
      assert PastAt(acc, acc.view(it), n, rest, i) && PastAt(acc, v, k, it, n + i);
    }
  }

  /** The last take on the way to an iterator yielded something. */
  ghost predicate TakenTo<I(!new), T>(acc: Access<I, T>, from: I, to: I) {
    exists e, m: nat {:trigger acc.next(e, Some(m))} ::
      Reachable(acc, from, e) && m > 0 && acc.next(e, Some(m)).1 == to && |acc.view(e)| == |acc.view(to)| + m
  }

  /** Where a source is left when a destination of `n` bytes has been filled from it:
      untouched, or right after the take of the last byte. */
  ghost predicate LeftAt<I(!new), T>(acc: Access<I, T>, src: I, n: nat, s: I) {
    if n == 0 then s == src else TakenTo(acc, src, s)
  }

  /** What the loops below do first: take slices of one length from both iterators.
      Either both have one, or one of them is exhausted. A round that takes nothing
      brings one of the iterators closer to its end. */
  method TakeBoth<I(!new), S, J(!new), T>(dacc: Access<I, S>, dst: I, sacc: Access<J, T>, src: J)
    returns (a: seq<S>, x: seq<T>, d: I, s: J, more: bool)
    requires IsAccess(dacc) && IsAccess(sacc)
    ensures Splits(dacc.view(dst), a, dacc.view(d)) && Splits(sacc.view(src), x, sacc.view(s))
    ensures |a| == |x| && more == (dacc.view(dst) != [] && sacc.view(src) != [])
    ensures !more ==> a == []
    ensures more && a == [] ==> dacc.links(d) + sacc.links(s) < dacc.links(dst) + sacc.links(src)
    ensures sacc.view(src) == [] ==> d == dacc.next(dst, Some(0)).1
    ensures Reachable(dacc, dst, d) && Reachable(sacc, src, s) && (!more ==> Settled(dacc, d))
    ensures dacc.view(dst) == [] ==> s == src
    ensures more ==> s == sacc.next(src, Some(|x|)).1
  {
    ReachTake(dacc, dst, dst, Some(Min(dacc.len(dst), sacc.len(src))));
    ReachTake(sacc, src, src, Some(Min(dacc.len(dst), sacc.len(src))));
    var n := Min(dacc.len(dst), sacc.len(src));
    var (da, d') := dacc.next(dst, Some(n));
    assert Promises(dacc, dst, Some(n)) && Promises(sacc, src, Some(n));
    if da.None? { return [], [], d', src, false; }
    var (sa, s') := sacc.next(src, Some(n));
    if sa.None? { return da.value, [], d', s', false; }
    return da.value, sa.value, d', s', true;
  }

  // ---- copying ----

  method CopyRound<I(!new), J(!new)>(mem: array<byte>, dacc: Access<I, nat>, dst: I, sacc: Access<J, byte>, src: J,
                                     ghost dst0: I, ghost src0: J, ghost m0: seq<byte>, ghost D: seq<nat>, ghost S: seq<byte>, ghost k: nat)
    returns (n: nat, d: I, s: J, more: bool)
    requires IsAccess(dacc) && IsAccess(sacc) && Within(D, |m0|) && Reachable(dacc, dst0, dst) && Reachable(sacc, src0, src)
    requires k == |D| ==> LeftAt(sacc, src0, k, src)
    requires Past(dacc, D, k, dst) && Past(sacc, S, k, src) && mem[..] == Put(m0, D, S, k)
    modifies mem
    ensures Past(dacc, D, k + n, d) && Past(sacc, S, k + n, s) && mem[..] == Put(m0, D, S, k + n)
    ensures !more ==> n == 0 && k == Min(|D|, |S|)
    ensures S == [] ==> !more && d == dacc.next(dst, Some(0)).1
    ensures more && n == 0 ==> dacc.links(d) + sacc.links(s) < dacc.links(dst) + sacc.links(src)
    ensures Reachable(dacc, dst0, d) && Reachable(sacc, src0, s) && (!more ==> Settled(dacc, d))
    ensures k + n == |D| ==> LeftAt(sacc, src0, k + n, s)
  {
    var a, x;
    a, x, d, s, more := TakeBoth(dacc, dst, sacc, src);
    Advance(dacc, D, k, dst, a, d);
    Advance(sacc, S, k, src, x, s);
    n := |a|;
    ReachOn(dacc, dst0, dst, d);
    ReachOn(sacc, src0, src, s);
    if more { WriteSlice(mem, a, x, m0, D, S, k); }
  }

  /** `copy_from_iter`: however both sides are sliced, as many bytes as both have
      are copied in order, nothing else is written, and both are left behind
      them. */
  method CopyFromIter<I(!new), J(!new)>(mem: array<byte>, dacc: Access<I, nat>, dst: I, sacc: Access<J, byte>, src: J)
    returns (copied: nat, d: I, s: J)
    requires IsAccess(dacc) && IsAccess(sacc) && Within(dacc.view(dst), mem.Length)
    modifies mem
    ensures copied == Min(|dacc.view(dst)|, |sacc.view(src)|)
    ensures Past(dacc, dacc.view(dst), copied, d) && Past(sacc, sacc.view(src), copied, s)
    ensures mem[..] == Put(old(mem[..]), dacc.view(dst), sacc.view(src), copied)
    ensures sacc.view(src) == [] ==> d == dacc.next(dst, Some(0)).1
    ensures Reachable(dacc, dst, d) && Settled(dacc, d)
    ensures copied == |dacc.view(dst)| ==> LeftAt(sacc, src, copied, s)
  {
    copied, d, s := 0, dst, src;
    ghost var D, S := dacc.view(dst), sacc.view(src);
    PastStart(dacc, dst);
    PastStart(sacc, src);
    var more := true;
    while more
      invariant Past(dacc, D, copied, d) && Past(sacc, S, copied, s) && (!more ==> copied == Min(|D|, |S|))
      invariant mem[..] == Put(old(mem[..]), D, S, copied)
      invariant Reachable(dacc, dst, d) && Reachable(sacc, src, s) && (!more ==> Settled(dacc, d))
      invariant copied == |D| ==> LeftAt(sacc, src, copied, s)
      invariant S == [] ==> d == if more then dst else dacc.next(dst, Some(0)).1
      decreases more, |D| - copied, dacc.links(d) + sacc.links(s)
    {
      var n;
      n, d, s, more := CopyRound(mem, dacc, d, sacc, s, dst, src, old(mem[..]), D, S, copied);
      copied := copied + n;
    }
  }

  /** Wherever a destination may leave this source, with so many bytes left it passes
      for empty exactly if `stops` says so. */
  ghost predicate PassesFor<I(!new), T>(acc: Access<I, T>, src: I, stops: nat -> bool) {
    forall s {:trigger acc.isEmpty(s)} ::
      acc.view(s) != [] && |acc.view(s)| <= |acc.view(src)| && LeftAt(acc, src, |acc.view(src)| - |acc.view(s)|, s) ==>
        (acc.isEmpty(s) <==> stops(|acc.view(s)|))
  }

  /** Both sides have one length, or the source passes for empty at the end of the
      destination. */
  ghost predicate CopiesAll(n: nat, m: nat, stops: nat -> bool) { n == m || (n < m && stops(m - n)) }

  /** `copy_from_iter_exhaustive` succeeds for equal lengths, and for a longer source
      exactly if it passes for empty where the destination ends. */
  method CopyExhaustive<I(!new), J(!new)>(mem: array<byte>, dacc: Access<I, nat>, dst: I, sacc: Access<J, byte>, src: J)
    returns (ok: bool)
    requires IsAccess(dacc) && IsAccess(sacc) && Within(dacc.view(dst), mem.Length)
    modifies mem
    ensures forall stops {:trigger PassesFor(sacc, src, stops)} ::
      PassesFor(sacc, src, stops) ==> (ok <==> CopiesAll(|dacc.view(dst)|, |sacc.view(src)|, stops))
    ensures ok ==> |dacc.view(dst)| <= |sacc.view(src)|
    ensures ok ==> mem[..] == Put(old(mem[..]), dacc.view(dst), sacc.view(src), |dacc.view(dst)|)
  {
    var n, d, s := CopyFromIter(mem, dacc, dst, sacc, src);
    SettledIsRight(dacc, d);
    ok := dacc.isEmpty(d) && sacc.isEmpty(s);
    forall stops: nat -> bool | PassesFor(sacc, src, stops)
      ensures ok <==> CopiesAll(|dacc.view(dst)|, |sacc.view(src)|, stops)
    {
      if |dacc.view(dst)| < |sacc.view(src)| {
        assert LeftAt(sacc, src, |sacc.view(src)| - |sacc.view(s)|, s);
        assert sacc.isEmpty(s) <==> stops(|sacc.view(s)|);
      }
    }
  }

  // ---- xoring ----

  /** The bytes that xoring a source into a destination leaves there. */
  ghost function Xored(m: seq<byte>, D: seq<nat>, S: seq<byte>): (x: seq<byte>)
    ensures |x| == Min(|D|, |S|)
  {
    seq(Min(|D|, |S|), i requires 0 <= i < Min(|D|, |S|) => XorByte(if D[i] < |m| then m[D[i]] else 0, S[i]))
  }

  lemma XoredAt(m: seq<byte>, D: seq<nat>, S: seq<byte>, i: nat)
    requires Within(D, |m|) && i < |D| && i < |S|
    ensures Xored(m, D, S)[i] == XorByte(m[D[i]], S[i])
  {
  }

  lemma XoredPart(m: seq<byte>, D: seq<nat>, S: seq<byte>, k: nat, x: seq<byte>)
    requires Within(D, |m|) && k + |x| <= |D| && k + |x| <= |S| && forall i :: 0 <= i < |x| ==> x[i] == S[k + i]
    ensures forall i :: 0 <= i < |x| ==> XorByte(m[D[k + i]], x[i]) == Xored(m, D, S)[k + i]
  {
    forall i | 0 <= i < |x| ensures XorByte(m[D[k + i]], x[i]) == Xored(m, D, S)[k + i] { XoredAt(m, D, S, k + i); }
  }

  /** `X` is what xoring leaves. */
  ghost predicate Leaves(X: seq<byte>, m: seq<byte>, D: seq<nat>, S: seq<byte>) {
    |X| == Min(|D|, |S|) && forall u {:trigger Xored(u, D, S)} :: u == m ==> Xored(u, D, S) == X
  }

  method XorPiece(mem: array<byte>, a: seq<nat>, x: seq<byte>,
                  ghost m0: seq<byte>, ghost D: seq<nat>, ghost S: seq<byte>, ghost X: seq<byte>, ghost k: nat)
    requires Within(D, |m0|) && Distinct(D) && |a| == |x| && k + |a| <= |D| && k + |a| <= |S|
    requires Leaves(X, m0, D, S) && mem[..] == Put(m0, D, X, k)
    requires forall i :: 0 <= i < |a| ==> a[i] == D[k + i] && x[i] == S[k + i]
    modifies mem
    ensures mem[..] == Put(m0, D, X, k + |a|)
  {
    XoredPart(m0, D, S, k, x);
    XorSlice(mem, a, x, m0, D, Xored(m0, D, S), k);
  }

  method XorRound<I(!new), J(!new)>(mem: array<byte>, dacc: Access<I, nat>, dst: I, sacc: Access<J, byte>, src: J,
                                    ghost m0: seq<byte>, ghost D: seq<nat>, ghost S: seq<byte>, ghost X: seq<byte>, ghost k: nat)
    returns (n: nat, d: I, s: J, more: bool)
    requires IsAccess(dacc) && IsAccess(sacc) && Within(D, |m0|) && Distinct(D) && Leaves(X, m0, D, S)
    requires Past(dacc, D, k, dst) && Past(sacc, S, k, src) && mem[..] == Put(m0, D, X, k)
    modifies mem
    ensures Past(dacc, D, k + n, d) && Past(sacc, S, k + n, s) && mem[..] == Put(m0, D, X, k + n)
    ensures !more ==> n == 0 && k == Min(|D|, |S|)
    ensures !more ==> Settled(dacc, d)
    ensures more && n == 0 ==> dacc.links(d) + sacc.links(s) < dacc.links(dst) + sacc.links(src)
  {
    var a, x;
    a, x, d, s, more := TakeBoth(dacc, dst, sacc, src);
    Advance(dacc, D, k, dst, a, d);
    Advance(sacc, S, k, src, x, s);
    n := |a|;
    if more { XorPiece(mem, a, x, m0, D, S, X, k); }
  }

  /** `xor_from_iter`. */
  method XorFromIter<I(!new), J(!new)>(mem: array<byte>, dacc: Access<I, nat>, dst: I, sacc: Access<J, byte>, src: J)
    returns (copied: nat, d: I, s: J)
    requires IsAccess(dacc) && IsAccess(sacc) && Within(dacc.view(dst), mem.Length) && Distinct(dacc.view(dst))
    modifies mem
    ensures copied == Min(|dacc.view(dst)|, |sacc.view(src)|)
    ensures Past(dacc, dacc.view(dst), copied, d) && Past(sacc, sacc.view(src), copied, s) && Settled(dacc, d)
    ensures mem[..] == Put(old(mem[..]), dacc.view(dst), Xored(old(mem[..]), dacc.view(dst), sacc.view(src)), copied)
  {
    copied, d, s := 0, dst, src;
    ghost var D, S := dacc.view(dst), sacc.view(src);
    ghost var X := Xored(mem[..], D, S);
    PastStart(dacc, dst);
    PastStart(sacc, src);
    var more := true;
    while more
      invariant Past(dacc, D, copied, d) && Past(sacc, S, copied, s) && (!more ==> copied == Min(|D|, |S|) && Settled(dacc, d))
      invariant mem[..] == Put(old(mem[..]), D, X, copied)
      decreases more, |D| - copied, dacc.links(d) + sacc.links(s)
    {
      var n;
      n, d, s, more := XorRound(mem, dacc, d, sacc, s, old(mem[..]), D, S, X, copied);
      copied := copied + n;
    }
  }

  /** Xoring the same bytes again restores the memory. */
  lemma XoredTwice(m: seq<byte>, D: seq<nat>, S: seq<byte>, n: nat)
    requires Within(D, |m|) && Distinct(D) && n <= |D| && n <= |S|
    ensures var m1 := Put(m, D, Xored(m, D, S), n); Put(m1, D, Xored(m1, D, S), n) == m
  {
    var x := Xored(m, D, S);
    var m1 := Put(m, D, x, n);
    var y := Xored(m1, D, S);
    forall i | 0 <= i < n ensures y[i] == m[D[i]] {
      PutAt(m, D, x, n, i);
      XoredAt(m, D, S, i);
      XoredAt(m1, D, S, i);
      XorTwice(m[D[i]], S[i]);
    }
    PutBack(m, D, x, y, n);
  }

  /** `xor_from_iter` twice from the same source to the same destination. */
  method XorFromIterTwice<I(!new), J(!new)>(mem: array<byte>, dacc: Access<I, nat>, dst: I, sacc: Access<J, byte>, src: J)
    requires IsAccess(dacc) && IsAccess(sacc) && Within(dacc.view(dst), mem.Length) && Distinct(dacc.view(dst))
    modifies mem
    ensures mem[..] == old(mem[..])
  {
    XoredTwice(mem[..], dacc.view(dst), sacc.view(src), Min(|dacc.view(dst)|, |sacc.view(src)|));
    var n, d, s := XorFromIter(mem, dacc, dst, sacc, src);
    n, d, s := XorFromIter(mem, dacc, dst, sacc, src);
  }

  // ---- comparing ----

  lemma SplitEqual<T>(l: seq<T>, x: seq<T>, u: seq<T>, r: seq<T>, y: seq<T>, v: seq<T>)
    requires |x| == |y| && Splits(l, x, u) && Splits(r, y, v)
    ensures l == r <==> x == y && u == v
  {
    if |x| > 0 && l == r {
      assert x == l[..|x|] && u == l[|x|..] && y == r[..|x|] && v == r[|x|..];
    }
  }

  /** `ct_eq_with_iter`: whether both yield the same bytes, however sliced. */
  method CtEqWithIter<I(!new), J(!new)>(lacc: Access<I, byte>, left: I, racc: Access<J, byte>, right: J) returns (eq: bool)
    requires IsAccess(lacc) && IsAccess(racc)
    ensures eq <==> lacc.view(left) == racc.view(right)
  {
    var l, r := left, right;
    eq := true;
    while true
      invariant lacc.view(left) == racc.view(right) <==> eq && lacc.view(l) == racc.view(r)
      decreases |lacc.view(l)|, lacc.links(l) + racc.links(r)
    {
      var n := Min(lacc.len(l), racc.len(r));
      var (x, l') := lacc.next(l, Some(n));
      assert Promises(lacc, l, Some(n));
      if x.None? { break; }
      var (y, r') := racc.next(r, Some(n));
      assert Promises(racc, r, Some(n));
      if y.None? { return false; }
      SplitEqual(lacc.view(l), x.value, lacc.view(l'), racc.view(r), y.value, racc.view(r'));
      l, r, eq := l', r', eq && x == y;
    }
    var (last, _) := racc.next(r, None);
    assert Promises(racc, r, None);
    eq := eq && last.None?;
  }

  // ---- skipping ----

  /** `skip`. */
  method Skip<I(!new), T>(acc: Access<I, T>, it: I, distance: nat) returns (ok: bool, rest: I)
    requires IsAccess(acc)
    ensures ok <==> distance <= |acc.view(it)|
    ensures acc.view(rest) == if ok then acc.view(it)[distance..] else []
  {
    var left: nat := distance;
    rest := it;
    ghost var V := acc.view(it);
    PastStart(acc, it);
    while left != 0
      invariant left <= distance && Past(acc, V, distance - left, rest)
    {
      var (slice, r) := acc.next(rest, Some(left));
      assert Promises(acc, rest, Some(left));
      Advance(acc, V, distance - left, rest, Slot(slice), r);
      rest := r;
      if slice.None? { return false, rest; }
      left := left - |slice.value|;
    }
    PastIs(acc, V, distance, rest);
    ok := true;
  }

  // ---- reading everything ----

  /** Hashing an iterator takes slice after slice. */
  method ReadAll<I(!new)>(acc: Access<I, byte>, it: I) returns (x: seq<byte>)
    requires IsAccess(acc)
    ensures x == acc.view(it)
  {
    x := [];
    var rest := it;
    while true
      invariant acc.view(it) == x + acc.view(rest)
      decreases |acc.view(rest)|
    {
      var (slice, r) := acc.next(rest, None);
      assert Promises(acc, rest, None);
      if slice.None? { return; }
      x, rest := x + slice.value, r;
    }
  }

  // ---- single slices ----

  /** Copying out of a single slice of bytes. */
  method CopyFromBytes<I(!new)>(mem: array<byte>, dacc: Access<I, nat>, dst: I, x: seq<byte>) returns (copied: nat, d: I)
    requires IsAccess(dacc) && Within(dacc.view(dst), mem.Length)
    modifies mem
    ensures copied == Min(|dacc.view(dst)|, |x|) && Past(dacc, dacc.view(dst), copied, d)
    ensures mem[..] == Put(old(mem[..]), dacc.view(dst), x, copied)
    ensures x == [] ==> d == dacc.next(dst, Some(0)).1
    ensures Reachable(dacc, dst, d) && Settled(dacc, d)
  {
    ItersKeepPromises<byte>();
    var single: SliceIter<byte> := Singleton(Some(x));
    assert Iters<byte>().view(single) == x;
    var rest;
    copied, d, rest := CopyFromIter(mem, dacc, dst, Iters<byte>(), single);
  }

  /** Xoring from a single slice of bytes. */
  method XorFromBytes<I(!new)>(mem: array<byte>, dacc: Access<I, nat>, dst: I, x: seq<byte>) returns (copied: nat, d: I)
    requires IsAccess(dacc) && Within(dacc.view(dst), mem.Length) && Distinct(dacc.view(dst))
    modifies mem
    ensures copied == Min(|dacc.view(dst)|, |x|) && Past(dacc, dacc.view(dst), copied, d) && Settled(dacc, d)
    ensures mem[..] == Put(old(mem[..]), dacc.view(dst), Xored(old(mem[..]), dacc.view(dst), x), copied)
  {
    ItersKeepPromises<byte>();
    var single: SliceIter<byte> := Singleton(Some(x));
    assert Iters<byte>().view(single) == x;
    var rest;
    copied, d, rest := XorFromIter(mem, dacc, dst, Iters<byte>(), single);
  }

  function Range(i: nat, j: nat): (r: seq<nat>)
    requires i <= j
    ensures |r| == j - i && forall k :: 0 <= k < |r| ==> r[k] == i + k
  {
    seq(j - i, k => i + k)
  }

  lemma {:induction false} PutRange(m: seq<byte>, i: nat, v: seq<byte>, n: nat, p: nat)
    requires i <= |m| && n <= |m| - i && n <= |v| && p < |m|
    ensures Put(m, Range(i, |m|), v, n)[p] == if i <= p < i + n then v[p - i] else m[p]
  {
    if n > 0 { PutRange(m, i, v, n - 1, p); }
  }

  /** Copying into the rest of a buffer. */
  method CopyIntoBuffer<J(!new)>(buf: array<byte>, from: nat, sacc: Access<J, byte>, src: J) returns (copied: nat, s: J)
    requires IsAccess(sacc) && from <= buf.Length
    modifies buf
    ensures copied == Min(buf.Length - from, |sacc.view(src)|) && Past(sacc, sacc.view(src), copied, s)
    ensures forall p :: 0 <= p < buf.Length ==>
      buf[p] == if from <= p < from + copied then sacc.view(src)[p - from] else old(buf[p])
  {
    ItersKeepPromises<nat>();
    var single: SliceIter<nat> := Singleton(Some(Range(from, buf.Length)));
    assert Iters<nat>().view(single) == Range(from, buf.Length);
    var rest;
    copied, rest, s := CopyFromIter(buf, Iters<nat>(), single, sacc, src);
    forall p | 0 <= p < buf.Length
      ensures buf[p] == if from <= p < from + copied then sacc.view(src)[p - from] else old(buf[p])
    {
      PutRange(old(buf[..]), from, sacc.view(src), copied, p);
      assert buf[p] == buf[..][p];
    }
  }

  /** The slice that came first and all that is behind it. */
  ghost predicate First<I, T>(acc: Access<I, T>, v: seq<T>, s: seq<T>, rest: I) {
    Past(acc, v, |s|, rest) && forall i :: 0 <= i < |s| ==> s[i] == v[i]
  }

  lemma PastWithin<I>(dacc: Access<I, nat>, v: seq<nat>, k: nat, it: I, n: nat)
    requires Past(dacc, v, k, it) && Within(v, n)
    ensures Within(dacc.view(it), n)
  {
    PastIs(dacc, v, k, it);
  }

  /** Writing on where an iterator is at. */
  lemma PutPast<I>(dacc: Access<I, nat>, v: seq<nat>, k: nat, it: I, m0: seq<byte>, x: seq<byte>, y: seq<byte>, n: nat)
    requires Past(dacc, v, k, it) && Within(v, |m0|) && k + n <= |x| && k + n <= |v| && n <= |y|
    requires forall i :: 0 <= i < n ==> y[i] == x[k + i]
    ensures Within(dacc.view(it), |m0|) && Put(Put(m0, v, x, k), dacc.view(it), y, n) == Put(m0, v, x, k + n)
  {
    var w := dacc.view(it);
    forall i | 0 <= i < |w| ensures w[i] == v[k + i] { assert PastAt(dacc, v, k, it, i); }
    PutNext(m0, v, x, k, w, y, n);
  }

  /** Copying on, after the first `k` bytes of `x` have been written. */
  method CopyOn<I(!new)>(mem: array<byte>, dacc: Access<I, nat>, dst: I, y: seq<byte>,
                         ghost m0: seq<byte>, ghost v: seq<nat>, ghost x: seq<byte>, ghost k: nat)
    returns (n: nat, d: I)
    requires IsAccess(dacc) && Within(v, |m0|) && k + |y| <= |x| && Past(dacc, v, k, dst) && mem[..] == Put(m0, v, x, k)
    requires forall i :: 0 <= i < |y| ==> y[i] == x[k + i]
    modifies mem
    ensures n == Min(|y|, |v| - k) && Past(dacc, v, k + n, d) && mem[..] == Put(m0, v, x, k + n)
    ensures y == [] ==> d == dacc.next(dst, Some(0)).1
    ensures Reachable(dacc, dst, d) && Settled(dacc, d)
  {
    PutPast(dacc, v, k, dst, m0, x, y, Min(|y|, |v| - k));
    n, d := CopyFromBytes(mem, dacc, dst, y);
    PastTwice(dacc, v, k, dst, n, d);
  }

  /** Write a block to the slice at hand and on to the ones after it: the bytes of
      `x` from the `j`-th on. */
  method ScatterBlock<I(!new)>(mem: array<byte>, a: seq<nat>, dacc: Access<I, nat>, dst: I, o: seq<byte>,
                               ghost m0: seq<byte>, ghost v: seq<nat>, ghost x: seq<byte>, ghost j: nat)
    returns (n: nat, d: I)
    requires IsAccess(dacc) && Within(v, |m0|) && |a| <= |o| && j + |o| <= |x|
    requires Past(dacc, v, j + |a|, dst) && mem[..] == Put(m0, v, x, j)
    requires (forall i :: 0 <= i < |a| ==> a[i] == v[j + i]) && (forall i :: 0 <= i < |o| ==> o[i] == x[j + i])
    modifies mem
    ensures n == Min(|o|, |v| - j) && Past(dacc, v, j + n, d) && mem[..] == Put(m0, v, x, j + n)
    ensures Reachable(dacc, dst, d) && Settled(dacc, d)
  {
    WriteSlice(mem, a, o[..|a|], m0, v, x, j);
    n, d := CopyOn(mem, dacc, dst, o[|a|..], m0, v, x, j + |a|);
    n := |a| + n;
  }

  method ScatterFirst<I(!new)>(mem: array<byte>, a: seq<nat>, dacc: Access<I, nat>, dst: I, o: seq<byte>, ghost v: seq<nat>)
    returns (n: nat, d: I)
    requires IsAccess(dacc) && Within(v, mem.Length) && |a| <= |o| && First(dacc, v, a, dst)
    modifies mem
    ensures n == Min(|o|, |v|) && Past(dacc, v, n, d) && mem[..] == Put(old(mem[..]), v, o, n)
  {
    n, d := ScatterBlock(mem, a, dacc, dst, o, mem[..], v, o, 0);
  }
}
