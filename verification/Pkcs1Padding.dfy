/** The random padding and the decoding of RSAES-PKCS1-v1_5
    (crypto/src/rsa/es_pkcs1_v1_5.rs; section 7.2 of RFC 8017). */
module Pkcs1Padding {
  import opened Bytes
  import opened Results

  const MAX_RETRIES: nat := 16

  /** Byte `j` the generator delivers in call `i`, or nothing if the call fails. */
  type Rng = nat -> Option<nat -> byte>

  ghost predicate NoZero(s: seq<byte>) { forall i :: 0 <= i < |s| ==> s[i] != 0 }

  /** Moving a piece to the end is a permutation. */
  lemma MoveKeepsBytes(s: seq<byte>, s': seq<byte>, lo: nat, i: nat, n: nat, hi: nat)
    requires lo <= i <= i + n <= hi <= |s| == |s'|
    requires s'[lo..i] == s[lo..i] && s'[i..hi - n] == s[i + n..hi] && s'[hi - n..hi] == s[i..i + n]
    ensures multiset(s'[lo..hi]) == multiset(s[lo..hi])
  {
    assert s[lo..hi] == s[lo..i] + s[i..i + n] + s[i + n..hi];
    assert s'[lo..hi] == s'[lo..i] + s'[i..hi - n] + s'[hi - n..hi];
  }

  /** The generator has delivered this byte. */
  ghost predicate Delivered(b: byte, rng: Rng, calls: nat) {
    exists c: nat, j: nat :: c < calls && rng(c).Some? && rng(c).value(j) == b
  }

  /** Call `i` succeeds, and its first `n` bytes have no zero among them. */
  ghost predicate NoZeroDrawn(rng: Rng, i: nat, n: nat) {
    rng(i).Some? && forall j: nat :: j < n ==> rng(i).value(j) != 0
  }
  /** After at least as many calls as there are retries, one had a zero among these. */
  ghost predicate ZeroDrawn(rng: Rng, n: nat) {
    exists i: nat :: MAX_RETRIES <= i + 1 && rng(i).Some? && !NoZeroDrawn(rng, i, n)
  }
  ghost predicate Fails(rng: Rng) { exists i: nat :: rng(i).None? }
  /** The generator never fails and never delivers a zero. */
  ghost predicate NeverZero(rng: Rng) { forall i: nat, n: nat {:trigger NoZeroDrawn(rng, i, n)} :: NoZeroDrawn(rng, i, n) }

  /** `fill_padding_with_nonzero_random_bytes` on the bytes of `a` from `lo` to
      `hi`. The loop does not stop at a fill without zeros: it always goes on until
      as many rounds in a row as there are retries made no progress. Then it succeeds
      exactly if there is no zero among the bytes the last call had to deliver. */
  method FillPadding(a: array<byte>, lo: nat, hi: nat, rng: Rng) returns (r: Result<()>, calls: nat, ghost drawn: nat)
    requires lo <= hi <= a.Length
    modifies a
    ensures a[..lo] == old(a[..lo]) && a[hi..] == old(a[hi..])
    ensures r.Ok? ==> NoZero(a[lo..hi])
    ensures r == Err(RandomSamplingRetriesExceeded) ==> lo < hi && !NoZero(a[lo..hi])
    ensures lo < hi && (r.Ok? || r.error == RandomSamplingRetriesExceeded) ==>
      calls >= MAX_RETRIES && 0 < drawn <= hi - lo && rng(calls - 1).Some? && (r.Ok? <==> NoZeroDrawn(rng, calls - 1, drawn))
    ensures NeverZero(rng) ==> r.Ok? && (lo < hi ==> calls == MAX_RETRIES)
    ensures r.Err? && r.error != RandomSamplingRetriesExceeded ==>
      r.error == RngFailure && calls > 0 && rng(calls - 1).None?
    ensures r.Ok? ==> forall i :: lo <= i < hi ==> Delivered(a[i], rng, calls)
  {
    var start, retries := lo, 0;
    calls, drawn := 0, 0;
    while start < hi && retries < MAX_RETRIES
      invariant lo <= start <= hi && (lo < hi ==> start < hi)
      invariant forall i :: 0 <= i < lo || hi <= i < a.Length ==> a[i] == old(a[i])
      invariant NoZeroIn(a, lo, start)
      invariant retries <= MAX_RETRIES && retries <= calls
      invariant retries > 0 ==> AllZeroIn(a, start, hi) || NoZeroIn(a, start, hi)
      invariant forall i :: lo <= i < (if calls == 0 then start else hi) ==> Delivered(a[i], rng, calls)
      invariant calls > 0 ==> 0 < drawn <= hi - lo && rng(calls - 1).Some? && (NoZeroDrawn(rng, calls - 1, drawn) <==> NoZeroIn(a, start, hi))
      invariant NeverZero(rng) ==> retries == calls
      decreases hi - start, MAX_RETRIES - retries
    {
      var generated := rng(calls);
      calls := calls + 1;
      if generated.None? {
        assert !NoZeroDrawn(rng, calls - 1, 0);
        return Err(RngFailure), calls, drawn;
      }
      retries, drawn := retries + 1, hi - start;
      assert NeverZero(rng) ==> NoZeroDrawn(rng, calls - 1, drawn);
      var progress;
      start, progress := Round(a, lo, start, hi, generated.value, rng, calls);
      if progress { retries := 0; }
    }
    if start < hi && a[start] == 0 {
      assert a[lo..hi][start - lo] == 0;
      assert !NoZeroIn(a, start, hi);
      return Err(RandomSamplingRetriesExceeded), calls, drawn;
    }
    r := Ok(());
  }

  /** One round: draw bytes for what is unfinished, then move the zeros among them
      to the end. */
  method Round(a: array<byte>, ghost lo: nat, start0: nat, hi: nat, bytes: nat -> byte, ghost rng: Rng, ghost calls: nat)
      returns (start: nat, progress: bool)
    requires lo <= start0 < hi <= a.Length && NoZeroIn(a, lo, start0)
    requires calls > 0 && rng(calls - 1) == Some(bytes)
    requires forall i :: lo <= i < start0 ==> Delivered(a[i], rng, calls)
    modifies a
    ensures start0 <= start < hi && (progress ==> start0 < start)
    ensures forall i :: 0 <= i < lo || hi <= i < a.Length ==> a[i] == old(a[i])
    ensures NoZeroIn(a, lo, start)
    ensures AllZeroIn(a, start, hi) || NoZeroIn(a, start, hi)
    ensures NoZeroDrawn(rng, calls - 1, hi - start0) <==> NoZeroIn(a, start, hi)
    ensures NoZeroDrawn(rng, calls - 1, hi - start0) ==> !progress
    ensures forall i :: lo <= i < hi ==> Delivered(a[i], rng, calls)
  {
    Overwrite(a, start0, hi, bytes);
    DrawnIs(a, start0, hi, rng, calls - 1);
    assert forall i :: start0 <= i < hi ==> Delivered(a[i], rng, calls);
    ghost var drawn := a[start0..hi];
    assert forall b :: b in drawn ==> Delivered(b, rng, calls);
    start, progress := Squeeze(a, start0, hi);
    forall i | lo <= i < hi ensures Delivered(a[i], rng, calls) {
      if start0 <= i {
        assert a[start0..hi][i - start0] in multiset(drawn);
      }
    }
  }

  lemma DrawnIs(a: array<byte>, start: nat, hi: nat, rng: Rng, i: nat)
    requires start <= hi <= a.Length && rng(i).Some? && forall x :: start <= x < hi ==> a[x] == rng(i).value(x - start)
    ensures NoZeroDrawn(rng, i, hi - start) <==> NoZeroIn(a, start, hi)
  {
    if NoZeroIn(a, start, hi) {
      forall j: nat | j < hi - start ensures rng(i).value(j) != 0 { assert a[start + j] == rng(i).value(start + j - start); }
    }
  }

  /** One call of the generator. */
  method Overwrite(a: array<byte>, start: nat, hi: nat, bytes: nat -> byte)
    requires start <= hi <= a.Length
    modifies a
    ensures forall i :: start <= i < hi ==> a[i] == bytes(i - start)
    ensures forall i :: 0 <= i < start || hi <= i < a.Length ==> a[i] == old(a[i])
  {
    for j := start to hi
      invariant forall i :: start <= i < j ==> a[i] == bytes(i - start)
      invariant forall i :: 0 <= i < start || hi <= i < a.Length ==> a[i] == old(a[i])
    {
      a[j] := bytes(j - start);
    }
  }

  /** The inner loop: every zero is replaced with the next byte that is not zero,
      until the rest is free of zeros or has nothing else. */
  method Squeeze(a: array<byte>, start0: nat, hi: nat) returns (start: nat, progress: bool)
    requires start0 < hi <= a.Length
    modifies a
    ensures start0 <= start < hi && (progress ==> start0 < start)
    ensures forall i :: 0 <= i < start0 || hi <= i < a.Length ==> a[i] == old(a[i])
    ensures NoZeroIn(a, start0, start) && (AllZeroIn(a, start, hi) || NoZeroIn(a, start, hi))
    ensures Contents(a, start0, hi) == old(Contents(a, start0, hi))
    ensures old(NoZeroIn(a, start0, hi)) <==> NoZeroIn(a, start, hi)
    ensures old(NoZeroIn(a, start0, hi)) ==> !progress
  {
    NoneOf(a, start0, hi);
    start, progress := start0, false;
    var more := true;
    while more
      invariant start0 <= start < hi && (progress ==> start0 < start)
      invariant forall i :: 0 <= i < start0 || hi <= i < a.Length ==> a[i] == old(a[i])
      invariant NoZeroIn(a, start0, start)
      invariant !more ==> AllZeroIn(a, start, hi) || NoZeroIn(a, start, hi)
      invariant Contents(a, start0, hi) == old(Contents(a, start0, hi))
      invariant old(NoZeroIn(a, start0, hi)) ==> !progress
      decreases hi - start, more
    {
      NoneOf(a, start0, hi);
      start, more := CloseGap(a, start0, start, hi);
      if more { progress := true; }
    }
    NoneOf(a, start0, hi);
  }

  /** Whether there is a zero is a matter of the bytes, not of their order. */
  lemma NoneOf(a: array<byte>, i: nat, j: nat)
    requires i <= j <= a.Length
    ensures NoZeroIn(a, i, j) <==> 0 !in Contents(a, i, j)
  {
    if 0 in Contents(a, i, j) {
      var x :| 0 <= x < j - i && a[i..j][x] == 0;
      assert a[i + x] == 0;
    } else {
      forall x | i <= x < j ensures a[x] != 0 { assert a[i..j][x - i] == a[x]; }
    }
  }

  /** One iteration of that loop. */
  method CloseGap(a: array<byte>, ghost start0: nat, start: nat, hi: nat) returns (next: nat, more: bool)
    requires start0 <= start < hi <= a.Length && NoZeroIn(a, start0, start)
    modifies a
    ensures start <= next < hi && (more ==> start < next)
    ensures forall i :: 0 <= i < start0 || hi <= i < a.Length ==> a[i] == old(a[i])
    ensures NoZeroIn(a, start0, next)
    ensures !more ==> AllZeroIn(a, next, hi) || NoZeroIn(a, next, hi)
    ensures Contents(a, start0, hi) == old(Contents(a, start0, hi))
    ensures old(NoZeroIn(a, start, hi)) ==> !more
  {
    var zero := FindZero(a, start, hi);
    if zero == hi { return start, false; }
    var nonZero := FindNonZero(a, zero + 1, hi);
    if nonZero == hi { return zero, false; }
    MoveGap(a, start0, zero, nonZero - zero, hi);
    next, more := zero + 1, true;
  }

  ghost function Contents(a: array<byte>, i: nat, j: nat): multiset<byte> requires i <= j <= a.Length reads a {
    multiset(a[i..j])
  }
  ghost predicate NoZeroIn(a: array<byte>, i: nat, j: nat) requires j <= a.Length reads a {
    forall x :: i <= x < j ==> a[x] != 0
  }
  ghost predicate AllZeroIn(a: array<byte>, i: nat, j: nat) requires j <= a.Length reads a {
    forall x :: i <= x < j ==> a[x] == 0
  }

  method FindZero(a: array<byte>, from: nat, hi: nat) returns (i: nat)
    requires from <= hi <= a.Length
    ensures from <= i <= hi && NoZeroIn(a, from, i) && (i < hi ==> a[i] == 0)
  {
    i := from;
    while i < hi && a[i] != 0
      invariant from <= i <= hi && NoZeroIn(a, from, i)
    {
      i := i + 1;
    }
  }

  method FindNonZero(a: array<byte>, from: nat, hi: nat) returns (i: nat)
    requires from <= hi <= a.Length
    ensures from <= i <= hi && AllZeroIn(a, from, i) && (i < hi ==> a[i] != 0)
  {
    i := from;
    while i < hi && a[i] == 0
      invariant from <= i <= hi && AllZeroIn(a, from, i)
    {
      i := i + 1;
    }
  }

  /** One step of the inner loop, seen on the bytes from `start0` on. */
  method MoveGap(a: array<byte>, ghost start0: nat, start: nat, n: nat, hi: nat)
    requires 0 < n && start0 <= start && start + n < hi <= a.Length && AllZeroIn(a, start, start + n)
    modifies a
    ensures forall i :: 0 <= i < start || hi <= i < a.Length ==> a[i] == old(a[i])
    ensures a[start] == old(a[start + n])
    ensures Contents(a, start0, hi) == old(Contents(a, start0, hi))
  {
    ghost var s := a[..];
    MoveDown(a, start, n, hi);
    MoveKeepsBytes(s, a[..], start0, start, n, hi);
    assert s[start0..hi] == old(a[start0..hi]) && a[..][start0..hi] == a[start0..hi];
  }

  /** `copy_within(n.., 0)` and clearing the last `n` bytes. */
  method MoveDown(a: array<byte>, start: nat, n: nat, hi: nat)
    requires 0 < n && start + n < hi <= a.Length
    modifies a
    ensures forall i :: 0 <= i < a.Length ==>
      a[i] == if i < start || hi <= i then old(a[i]) else if i < hi - n then old(a[i + n]) else 0
  {
    for j := start to hi - n
      invariant forall i :: 0 <= i < a.Length ==> a[i] == if start <= i < j then old(a[i + n]) else old(a[i])
    {
      a[j] := a[j + n];
    }
    ghost var moved := a[..];
    for j := hi - n to hi
      invariant forall i :: 0 <= i < a.Length ==> a[i] == if hi - n <= i < j then 0 else moved[i]
    {
      a[j] := 0;
    }
  }

  // ---- encoding ----

  /** 00 02 PS 00 M. */
  function Encoded(ps: seq<byte>, m: seq<byte>): seq<byte> { [0, 2] + ps + [0] + m }

  /** The padding of `y` ends, with at least eight bytes, at the zero at `k`. */
  ghost predicate PaddingEndsAt(y: seq<byte>, k: nat) {
    && 10 <= k < |y| && y[0] == 0 && y[1] == 2 && y[k] == 0
    && forall i :: 2 <= i < k ==> y[i] != 0
  }

  /** Every message encoded with at least eight non-zero padding bytes has its
      padding end right before the message. */
  lemma EncodedEnds(ps: seq<byte>, m: seq<byte>)
    requires NoZero(ps) && |ps| >= 8
    ensures PaddingEndsAt(Encoded(ps, m), |ps| + 2)
    ensures Encoded(ps, m)[|ps| + 3..] == m
  {
  }

  /** Anything whose padding ends somewhere is such an encoding. */
  lemma EndsMeansEncoded(y: seq<byte>, k: nat)
    requires PaddingEndsAt(y, k)
    ensures NoZero(y[2..k]) && |y[2..k]| >= 8 && y == Encoded(y[2..k], y[k + 1..])
  {
  }

  /** The decoding part of `decrypt`: the format is checked first, and a message
      in a wrong format is scanned to its end without finding a separator. */
  method Decode(y: seq<byte>) returns (r: Result<seq<byte>>)
    requires |y| >= 11
    ensures r.Ok? <==> exists k :: PaddingEndsAt(y, k)
    ensures forall k :: PaddingEndsAt(y, k) ==> r == Ok(y[k + 1..])
    ensures r.Err? ==> r.error == InvalidPadding
  {
    var ok := y[0] == 0 && y[1] == 2;
    for i := 2 to 10
      invariant ok <==> y[0] == 0 && y[1] == 2 && forall j :: 2 <= j < i ==> y[j] != 0
    {
      ok := ok && y[i] != 0;
    }
    var i := 10;
    while i < |y|
      invariant 10 <= i <= |y|
      invariant ok ==> forall j :: 10 <= j < i ==> y[j] != 0
    {
      var b := if ok then y[i] else 0xff;
      if b == 0 {
        assert PaddingEndsAt(y, i);
        return Ok(y[i + 1..]);
      }
      i := i + 1;
    }
    r := Err(InvalidPadding);
  }
}
