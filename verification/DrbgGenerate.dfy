/** Instantiating, reseeding and using the Hash_DRBG (crypto/src/rng/hash_drbg.rs). */
module DrbgGenerate {
  import opened Arith
  import opened Cmpa
  import opened Results
  import opened Bytes
  import opened Hashing
  import opened IoSlices
  import opened SliceMemory
  import opened SliceAccess
  import opened IoSliceOps
  import opened HashDrbg

  /** The hash, its digest length, and the seed length that goes with it. */
  datatype Params = Params(h: Hash, dl: nat, sl: nat)
  ghost predicate ParamsOk(p: Params) { IsHash(p.h, p.dl) && p.dl <= 64 && p.sl == (if p.dl <= 32 then 55 else 110) }

  /** Section 10.1.1.1: V, C and the reseed counter. */
  datatype State = State(v: nat, c: nat, counter: nat)
  ghost predicate StateOk(p: Params, s: State) { s.v < Cap(p.sl) && s.c < Cap(p.sl) }

  // ---- specification: section 10.1.1 ----

  /** The state for some seed material, of Instantiate and Reseed. */
  ghost function Seeded(p: Params, material: seq<byte>): (s: State)
    requires ParamsOk(p)
    ensures StateOk(p, s) && s.counter == 1
  {
    var v := HashDfBytes(p.h, p.dl, material, p.sl);
    var c := HashDfBytes(p.h, p.dl, [0] + v, p.sl);
    BEBound(v);
    BEBound(c);
    State(BE(v), BE(c), 1)
  }

  /** Step 2 of Generate: additional input is mixed into V. */
  function MixedIn(p: Params, v: nat, extra: seq<byte>): (r: nat)
    requires v < Cap(p.sl)
    ensures r < Cap(p.sl)
  {
    if extra == [] then v else Add(v, BE(p.h([2] + ToBE(v, p.sl) + extra)), Cap(p.sl))
  }

  /** One request of the Generate algorithm. */
  ghost function OneRequest(p: Params, s: State, extra: seq<byte>, n: nat): (r: (seq<byte>, State))
    requires ParamsOk(p) && StateOk(p, s)
    ensures |r.0| == n && StateOk(p, r.1) && r.1.counter == s.counter + 1
  {
    var v := MixedIn(p, s.v, extra);
    var out := HashgenBytes(p.h, p.dl, v, p.sl, n);
    var hv := BE(p.h([3] + ToBE(v, p.sl)));
    (out, State(Add(v, hv + s.c + s.counter, Cap(p.sl)), s.c, s.counter + 1))
  }

  // The same, with what is hashed laid out byte by byte.

  /** A string that begins with `tag` and the number `v` in `sl` bytes. */
  ghost predicate Starts(w: seq<byte>, tag: byte, v: nat, sl: nat) {
    |w| >= 1 + sl && w[0] == tag && BE(w[1..1 + sl]) == v
  }
  lemma StartsIs(w: seq<byte>, tag: byte, v: nat, sl: nat)
    requires Starts(w, tag, v, sl)
    ensures w == [tag] + ToBE(v, sl) + w[1 + sl..]
  {
    OnlyBytes(v, w[1..1 + sl]);
    assert w == [w[0]] + w[1..1 + sl] + w[1 + sl..];
  }

  /** Step 2 of section 10.1.1.4. */
  lemma MixedIs(p: Params, v: nat, extra: seq<byte>, w: seq<byte>)
    requires v < Cap(p.sl) && extra != [] && Starts(w, 2, v, p.sl) && w[1 + p.sl..] == extra
    ensures MixedIn(p, v, extra) == (v + BE(p.h(w))) % Cap(p.sl) && MixedIn(p, v, []) == v
  {
    StartsIs(w, 2, v, p.sl);
  }

  /** Steps 3 to 6: byte `j` of what is delivered, and the next state. */
  lemma RequestIs(p: Params, s: State, extra: seq<byte>, n: nat, w: seq<byte>)
    requires ParamsOk(p) && StateOk(p, s) && Starts(w, 3, MixedIn(p, s.v, extra), p.sl) && |w| == 1 + p.sl
    ensures var (out, t) := OneRequest(p, s, extra, n);
            && t == State((MixedIn(p, s.v, extra) + BE(p.h(w)) + s.c + s.counter) % Cap(p.sl), s.c, s.counter + 1)
            && |out| == n
            && forall q: nat, o: nat, j: nat, x: seq<byte> {:trigger DigestByte(p, MixedIn(p, s.v, extra), q, o, j, x)} ::
                 j < n && DigestByte(p, MixedIn(p, s.v, extra), q, o, j, x) ==> |p.h(x)| == p.dl && out[j] == p.h(x)[o]
  {
    StartsIs(w, 3, MixedIn(p, s.v, extra), p.sl);
    assert w == [3] + ToBE(MixedIn(p, s.v, extra), p.sl);
    var v := MixedIn(p, s.v, extra);
    forall q: nat, o: nat, j: nat, x: seq<byte> | j < n && DigestByte(p, v, q, o, j, x)
      ensures |p.h(x)| == p.dl && OneRequest(p, s, extra, n).0[j] == p.h(x)[o]
    {
      HashgenIs(p.h, p.dl, v, p.sl, n, q, o, j, x);
    }
  }
  /** Byte `j` is byte `o` of digest `q`, which is that of `x`. */
  ghost predicate DigestByte(p: Params, v: nat, q: nat, o: nat, j: nat, x: seq<byte>) {
    o < p.dl && j == q * p.dl + o && |x| == p.sl && BE(x) == (v + q) % Cap(p.sl)
  }

  /** Instantiate and Reseed: V and C are Hash_df of the seed material and of a zero byte
      followed by V, and the counter is one. */
  lemma SeededIs(p: Params, material: seq<byte>, v: seq<byte>, c: seq<byte>, w: seq<byte>)
    requires ParamsOk(p)
    requires |w| == 1 + p.sl && w[0] == 0 && w[1..] == v
    requires v == HashDfBytes(p.h, p.dl, material, p.sl) && c == HashDfBytes(p.h, p.dl, w, p.sl)
    ensures Seeded(p, material) == State(BE(v), BE(c), 1)
  {
    assert w == [0] + v;
  }

  /** `n` bytes in requests of at most the largest length: the bytes up to where a
      reseed is required, if it is, and the state then. */
  ghost function Requests(p: Params, s: State, extra: seq<byte>, n: nat): (r: (seq<byte>, State))
    requires ParamsOk(p) && StateOk(p, s)
    ensures |r.0| <= n && StateOk(p, r.1) && (|r.0| < n ==> r.1.counter > MAX_REQUESTS)
    decreases n
  {
    if n == 0 || s.counter > MAX_REQUESTS then ([], s)
    else
      MaxLenPositive(p.dl);
      var k := Min(MaxLen(p.dl), n);
      var (out, s1) := OneRequest(p, s, extra, k);
      var (rest, s2) := Requests(p, s1, extra, n - k);
      (out + rest, s2)
  }
  lemma MaxLenPositive(dl: nat)
    requires 0 < dl <= 64
    ensures MaxLen(dl) > 0
  {
    RoundDown(MAX_REQUEST_LEN, dl);
  }

  /** A request of `k` bytes in state `s` delivers `out` and leads to `t`. */
  ghost predicate Delivers(p: Params, s: State, extra: seq<byte>, k: nat, out: seq<byte>, t: State)
    requires ParamsOk(p)
  {
    && StateOk(p, s) && StateOk(p, t) && |out| == k && s.counter <= MAX_REQUESTS
    && forall u {:trigger OneRequest(p, u, extra, k)} :: u == s ==> OneRequest(p, u, extra, k) == (out, t)
  }
  /** `x` are the bytes for `n` from state `s` on. */
  ghost predicate BytesFrom(p: Params, s: State, extra: seq<byte>, n: nat, x: seq<byte>)
    requires ParamsOk(p)
  {
    StateOk(p, s) && forall u {:trigger Requests(p, u, extra, n)} :: u == s ==> Requests(p, u, extra, n).0 == x
  }
  lemma FirstRequest(p: Params, s: State, extra: seq<byte>, n: nat, x: seq<byte>, k: nat, out: seq<byte>, t: State) returns (rest: seq<byte>)
    requires ParamsOk(p) && BytesFrom(p, s, extra, n, x) && n > 0 && k == Min(MaxLen(p.dl), n) && Delivers(p, s, extra, k, out, t)
    ensures BytesFrom(p, t, extra, n - k, rest) && x == out + rest
  {
    MaxLenPositive(p.dl);
    rest := Requests(p, t, extra, n - k).0;
    assert OneRequest(p, s, extra, k) == (out, t);
    assert Requests(p, s, extra, n).0 == out + rest;
  }

  /** Request by request: request `q` delivers its part of the bytes, with the additional
      input, in the state to which the ones of the largest length before it lead. */
  lemma {:induction false} RequestsAt(p: Params, states: seq<State>, outs: seq<seq<byte>>, extra: seq<byte>, n: nat, x: seq<byte>,
                                      q: nat, m: nat, i: nat, out: seq<byte>, t: State)
    requires ParamsOk(p) && q < |states| && q <= |outs| && m == MaxLen(p.dl) && i == q * m < n
    requires forall k :: 0 <= k < q ==> Delivers(p, states[k], extra, m, outs[k], states[k + 1])
    requires Delivers(p, states[q], extra, Min(m, n - i), out, t) && BytesFrom(p, states[0], extra, n, x)
    ensures i + |out| <= |x| && x[i..i + |out|] == out
    decreases q
  {
    if q == 0 {
      var rest := FirstRequest(p, states[0], extra, n, x, Min(m, n), out, t);
      assert (out + rest)[..|out|] == out;
    } else {
      MulAtLeast(m, q);
      MulDistributes(m, q - 1, 1);
      var rest := FirstRequest(p, states[0], extra, n, x, m, outs[0], states[1]);
      RequestsAt(p, states[1..], outs[1..], extra, n - m, rest, q - 1, m, i - m, out, t);
      assert (outs[0] + rest)[i..i + |out|] == rest[i - m..i - m + |out|];
    }
  }

  /** In state `s`, with `j` bytes out, what remains of `n` bytes is the rest of `all`. */
  ghost predicate Reached(p: Params, s: State, extra: seq<byte>, n: nat, all: (seq<byte>, State), j: nat)
    requires ParamsOk(p)
  {
    && StateOk(p, s) && j <= n && j <= |all.0|
    && forall t {:trigger Requests(p, t, extra, n - j)} :: t == s ==> Requests(p, t, extra, n - j) == (all.0[j..], all.1)
  }

  lemma ReachRequest(p: Params, s: State, extra: seq<byte>, n: nat, all: (seq<byte>, State), j: nat)
    requires ParamsOk(p) && Reached(p, s, extra, n, all, j) && j < n && s.counter <= MAX_REQUESTS
    ensures var k := Min(MaxLen(p.dl), n - j);
            var (out, s') := OneRequest(p, s, extra, k);
            k > 0 && j + k <= |all.0| && out == all.0[j..j + k] && Reached(p, s', extra, n, all, j + k)
  {
    MaxLenPositive(p.dl);
    var k := Min(MaxLen(p.dl), n - j);
    var (out, s') := OneRequest(p, s, extra, k);
    var (rest, s2) := Requests(p, s', extra, n - j - k);
    assert Requests(p, s, extra, n - j) == (out + rest, s2);
    assert all.0[j..] == out + rest;
    assert all.0[j..][..k] == all.0[j..j + k] && all.0[j..][k..] == all.0[j + k..];
    assert n - j - k == n - (j + k);
  }

  /** The same for what is written. */
  lemma RequestOn<I>(p: Params, s: State, extra: seq<byte>, dacc: Access<I, nat>, D: seq<nat>, it: I, m0: seq<byte>,
                     all: (seq<byte>, State), j: nat, k: nat)
    requires ParamsOk(p) && Reached(p, s, extra, |D|, all, j) && j < |D| && s.counter <= MAX_REQUESTS
    requires Past(dacc, D, j, it) && Within(D, |m0|) && k == Min(MaxLen(p.dl), |D| - j)
    ensures var (out, s') := OneRequest(p, s, extra, k);
            && k > 0 && j + k <= |all.0| && Reached(p, s', extra, |D|, all, j + k) && Within(dacc.view(it), |m0|)
            && Put(Put(m0, D, all.0, j), dacc.view(it), out, k) == Put(m0, D, all.0, j + k)
  {
    ReachRequest(p, s, extra, |D|, all, j);
    PutPast(dacc, D, j, it, m0, all.0, all.0[j..j + k], k);
  }

  /** The end of a series of requests: all bytes are out, or a reseed is required. */
  lemma ReachEnd(p: Params, s: State, extra: seq<byte>, n: nat, all: (seq<byte>, State), j: nat)
    requires ParamsOk(p) && Reached(p, s, extra, n, all, j) && (j == n || s.counter > MAX_REQUESTS)
    ensures j == |all.0| && s == all.1
  {
    assert Requests(p, s, extra, n - j) == ([], s);
  }

  // ---- the state on the way ----

  /** A number of whole requests of length `m`. */
  ghost predicate Whole(j: nat, m: nat) requires m > 0 { j == 0 || (j >= m && Whole(j - m, m)) }

  lemma {:induction false} WholeNext(j: nat, m: nat)
    requires m > 0 && Whole(j, m)
    ensures Whole(j + m, m)
  {
    if j > 0 { WholeNext(j - m, m); }
  }

  /** All `j` bytes are served from `s`, which leads to `t`. */
  ghost predicate Served(p: Params, s: State, extra: seq<byte>, j: nat, t: State)
    requires ParamsOk(p)
  {
    && StateOk(p, s) && StateOk(p, t)
    && forall u {:trigger Requests(p, u, extra, j)} :: u == s ==> |Requests(p, u, extra, j).0| == j && Requests(p, u, extra, j).1 == t
  }

  lemma ServedNone(p: Params, s: State, extra: seq<byte>, t: State)
    requires ParamsOk(p) && StateOk(p, s)
    ensures Served(p, s, extra, 0, t) <==> t == s
  {
    assert Requests(p, s, extra, 0) == ([], s);
  }

  /** A request of `k` bytes leads from `s` to `t`. */
  ghost predicate Leads(p: Params, s: State, extra: seq<byte>, k: nat, t: State)
    requires ParamsOk(p)
  {
    StateOk(p, s) && forall u {:trigger OneRequest(p, u, extra, k)} :: u == s ==> OneRequest(p, u, extra, k).1 == t
  }
  lemma LeadsTo(p: Params, s: State, extra: seq<byte>, k: nat) returns (t: State)
    requires ParamsOk(p) && StateOk(p, s)
    ensures Leads(p, s, extra, k, t) && StateOk(p, t)
  {
    t := OneRequest(p, s, extra, k).1;
  }

  lemma ServedMore(p: Params, s: State, extra: seq<byte>, n: nat, k: nat, s1: State, t: State)
    requires ParamsOk(p) && n > 0 && k == Min(MaxLen(p.dl), n) && Leads(p, s, extra, k, s1)
    ensures Served(p, s, extra, n, t) <==> s.counter <= MAX_REQUESTS && Served(p, s1, extra, n - k, t)
  {
    MaxLenPositive(p.dl);
    assert OneRequest(p, s, extra, k).1 == s1;
    var (rest, s2) := Requests(p, s1, extra, n - k);
    assert |Requests(p, s, extra, n).0| == if s.counter > MAX_REQUESTS then 0 else k + |rest|;
  }

  /** A request after whole ones is the last one of them all. */
  lemma {:induction false} RequestsAppend(p: Params, s: State, extra: seq<byte>, j: nat, k: nat, t: State, last: State)
    requires ParamsOk(p) && MaxLen(p.dl) > 0 && Whole(j, MaxLen(p.dl)) && 0 < k <= MaxLen(p.dl)
    requires Served(p, s, extra, j, t) && t.counter <= MAX_REQUESTS && Leads(p, t, extra, k, last) && StateOk(p, last)
    ensures Served(p, s, extra, j + k, last)
    decreases j
  {
    if j == 0 {
      ServedNone(p, s, extra, t);
      ServedMore(p, s, extra, k, k, last, last);
      ServedNone(p, last, extra, last);
    } else {
      var m := MaxLen(p.dl);
      var s1 := LeadsTo(p, s, extra, m);
      ServedMore(p, s, extra, j, m, s1, t);
      RequestsAppend(p, s1, extra, j - m, k, t, last);
      ServedMore(p, s, extra, j + k, m, s1, last);
      assert j + k - m == j - m + k;
    }
  }

  /** `s` is the state after `j` of `n` bytes, at the end of a request or of everything. */
  ghost predicate StateAfter(p: Params, s0: State, extra: seq<byte>, n: nat, j: nat, s: State)
    requires ParamsOk(p)
  {
    (j == n || WholeRequests(p, j)) && Served(p, s0, extra, j, s)
  }
  ghost predicate WholeRequests(p: Params, j: nat) requires ParamsOk(p) { MaxLenPositive(p.dl); Whole(j, MaxLen(p.dl)) }

  lemma NoneYet(p: Params, s: State, extra: seq<byte>, n: nat)
    requires ParamsOk(p) && StateOk(p, s)
    ensures StateAfter(p, s, extra, n, 0, s)
  {
    ServedNone(p, s, extra, s);
  }

  lemma StateOn(p: Params, s0: State, extra: seq<byte>, n: nat, j: nat, s: State, k: nat)
    requires ParamsOk(p) && StateAfter(p, s0, extra, n, j, s) && j < n && k == Min(MaxLen(p.dl), n - j)
    requires s.counter <= MAX_REQUESTS && StateOk(p, s)
    ensures StateAfter(p, s0, extra, n, j + k, OneRequest(p, s, extra, k).1)
  {
    MaxLenPositive(p.dl);
    RequestsAppend(p, s0, extra, j, k, s, OneRequest(p, s, extra, k).1);
    WholeNext(j, MaxLen(p.dl));
  }

  // ---- where it stops ----

  /** At the start, or right after a digest. */
  ghost predicate AfterDigest<I(!new)>(dacc: Access<I, nat>, from: I, dl: nat, d: I) {
    d == from || Delivered(dacc, from, d, dl)
  }

  /** Right after a digest, with so many bytes left, the destination passes for empty
      exactly if `stops` says so. */
  ghost predicate Predicts<I(!new)>(dacc: Access<I, nat>, from: I, dl: nat, stops: nat -> bool) {
    forall d {:trigger dacc.isEmpty(d)} ::
      dacc.view(d) != [] && AfterDigest(dacc, from, dl, d) ==> (dacc.isEmpty(d) <==> stops(|dacc.view(d)|))
  }

  /** With `left` bytes to go, the number left when requests of the largest length are
      stopped at the end of one. */
  ghost function StopsWith(left: nat, stops: nat -> bool, dl: nat): (r: nat)
    requires 0 < dl <= 64
    ensures r <= left
    decreases left
  {
    MaxLenPositive(dl);
    if left == 0 || stops(left) then left else StopsWith(left - Min(MaxLen(dl), left), stops, dl)
  }

  /** Going on changes nothing of where it will stop. */
  ghost predicate SameStop<I(!new)>(dacc: Access<I, nat>, from: I, dl: nat, d: I)
    requires 0 < dl <= 64
  {
    forall stops {:trigger Predicts(dacc, from, dl, stops)} :: Predicts(dacc, from, dl, stops) ==>
      StopsWith(|dacc.view(from)|, stops, dl) == StopsWith(|dacc.view(d)|, stops, dl)
  }

  lemma DeliveredOn<I(!new)>(dacc: Access<I, nat>, from: I, via: I, d: I, dl: nat)
    requires Reachable(dacc, from, via) && Delivered(dacc, via, d, dl)
    ensures Delivered(dacc, from, d, dl)
  {
    if dacc.view(d) != [] {
      var e :| DeliveredFrom(dacc, via, e, d, dl);
      assert DeliveredFrom(dacc, via, e, d, dl);
      ReachOn(dacc, from, via, e);
      assert DeliveredFrom(dacc, from, e, d, dl);
    }
  }

  lemma GoOn<I(!new)>(dacc: Access<I, nat>, from: I, dl: nat, d: I, d': I)
    requires 0 < dl <= 64 && SameStop(dacc, from, dl, d) && AfterDigest(dacc, from, dl, d) && !dacc.isEmpty(d)
    requires dacc.view(d) != [] && |dacc.view(d')| == |dacc.view(d)| - Min(MaxLen(dl), |dacc.view(d)|)
    ensures SameStop(dacc, from, dl, d')
  {
  }

  /** `d` is on the way from `from`. */
  ghost predicate OnWay<I(!new)>(dacc: Access<I, nat>, from: I, dl: nat, d: I)
    requires 0 < dl <= 64
  {
    Reachable(dacc, from, d) && AfterDigest(dacc, from, dl, d) && SameStop(dacc, from, dl, d)
  }

  lemma PredictsOn<I(!new)>(dacc: Access<I, nat>, from: I, dl: nat, via: I, stops: nat -> bool)
    requires Reachable(dacc, from, via) && AfterDigest(dacc, from, dl, via) && Predicts(dacc, from, dl, stops)
    ensures Predicts(dacc, via, dl, stops)
  {
    forall d | dacc.view(d) != [] && AfterDigest(dacc, via, dl, d) ensures AfterDigest(dacc, from, dl, d) {
      if d != via { DeliveredOn(dacc, from, via, d, dl); }
    }
  }

  lemma OnWayOn<I(!new)>(dacc: Access<I, nat>, from: I, dl: nat, via: I, d: I)
    requires 0 < dl <= 64 && OnWay(dacc, from, dl, via) && OnWay(dacc, via, dl, d)
    ensures OnWay(dacc, from, dl, d)
  {
    ReachOn(dacc, from, via, d);
    if d != via { DeliveredOn(dacc, from, via, d, dl); }
    forall stops | Predicts(dacc, from, dl, stops)
      ensures StopsWith(|dacc.view(from)|, stops, dl) == StopsWith(|dacc.view(d)|, stops, dl)
    {
      PredictsOn(dacc, from, dl, via, stops);
    }
  }

  lemma StopHere<I(!new)>(dacc: Access<I, nat>, from: I, dl: nat, d: I)
    requires 0 < dl <= 64 && OnWay(dacc, from, dl, d)
    requires IsAccess(dacc) && dacc.isEmpty(d)
    ensures forall stops {:trigger Predicts(dacc, from, dl, stops)} :: Predicts(dacc, from, dl, stops) ==>
      StopsWith(|dacc.view(from)|, stops, dl) == |dacc.view(d)|
  {
  }

  // ---- additional input ----

  /** Additional input, if there is any: an iterator with its operations. */
  datatype Input<!A> = Input(acc: Access<A, byte>, it: Option<A>)
  ghost predicate InputOk<A(!new)>(input: Input<A>) { IsAccess(input.acc) }

  /** What `generate` makes of it: nothing if it passes for empty. */
  function Extra<A>(input: Input<A>): seq<byte> {
    if input.it.None? || input.acc.isEmpty(input.it.value) then [] else input.acc.view(input.it.value)
  }

  /** This is all of it if it is not behind a reference. */
  lemma ExtraDirectly(it: SliceIter<byte>)
    ensures Extra(Input(Iters<byte>(), Some(it))) == View(it)
  {
    assert IsEmpty(it) <==> View(it) == [];
  }

  /** Behind one, it is exactly if there is none or the leading iterator has some;
      otherwise none of it is used. */
  lemma ExtraThroughReference(it: SliceIter<byte>)
    ensures Extra(Input(ByRef(Iters<byte>()), Some(it))) == if View(Leading(it)) == [] then [] else View(it)
    ensures Extra(Input(ByRef(Iters<byte>()), Some(it))) == View(it) <==> View(it) == [] || View(Leading(it)) != []
  {
    ByRefIsEmpty(it);
  }

  lemma InputIgnored()
    ensures var it: Iter<byte> := Chain(Some(Singleton(Some([]))), Some(Singleton(Some([7]))));
            Valid(it) && View(it) == [7] && Extra(Input(ByRef(Iters<byte>()), Some(it))) == []
  {
    var first: Iter<byte> := Singleton(Some([]));
    var it: SliceIter<byte> := Chain(Some(first), Some(Singleton(Some([7]))));
    assert NextSliceLen(first) == 0 && View(first) == [] && View(it) == [7];
    ExtraThroughReference(it);
  }

  // ---- the generator ----

  class HashDrbgRng {
    const p: Params
    const minEntropy: nat
    var v: nat
    var c: nat
    var counter: nat

    ghost predicate Valid() reads this { ParamsOk(p) && StateOk(p, Snap()) }
    ghost function Snap(): State reads this { State(v, c, counter) }

    /** With any state; `Instantiate` sets it. */
    constructor (params: Params, entropyLen: nat)
      requires ParamsOk(params)
      ensures Valid() && p == params && minEntropy == entropyLen
    {
      p, minEntropy := params, entropyLen;
      v, c, counter := 0, 0, 0;
      new;
      BEBound([]);
    }

    /** Steps 2 to 5 of Instantiate and Reseed. */
    method Seed(material: seq<byte>)
      requires Valid()
      modifies this
      ensures Valid() && Snap() == Seeded(p, material)
    {
      var buf := new byte[p.sl](_ => 0);
      HashDf(p.h, p.dl, material, buf);
      var seed := buf[..];
      HashDf(p.h, p.dl, [0] + seed, buf);
      BEBound(seed);
      BEBound(buf[..]);
      v, c, counter := BE(seed), BE(buf[..]), 1;
    }

    /** `reseed`. */
    method Reseed(entropy: seq<byte>, extra: seq<byte>) returns (r: Result<()>)
      requires Valid()
      modifies this
      ensures Valid()
      ensures if |entropy| < minEntropy then r == Err(InsufficientSeedLength) && Snap() == old(Snap())
              else r == Ok(()) && Snap() == Seeded(p, [1] + ToBE(old(v), p.sl) + entropy + extra)
    {
      if |entropy| < minEntropy { return Err(InsufficientSeedLength); }
      Seed([1] + ToBE(v, p.sl) + entropy + extra);
      return Ok(());
    }

    /** Steps 2 to 6 of Generate for one request. */
    method GenerateOne<I(!new), A(!new)>(mem: array<byte>, dacc: Access<I, nat>, dst: I, input: Input<A>) returns (d: I)
      requires Valid() && IsAccess(dacc) && InputOk(input) && Within(dacc.view(dst), mem.Length)
      modifies this, mem
      ensures Valid()
      ensures var k := Min(MaxLen(p.dl), |dacc.view(dst)|);
              var (out, s') := OneRequest(p, old(Snap()), Extra(input), k);
              && Snap() == s' && Past(dacc, dacc.view(dst), k, d)
              && mem[..] == Put(old(mem[..]), dacc.view(dst), out, k)
              && Reachable(dacc, dst, d) && (k > 0 ==> Delivered(dacc, dst, d, p.dl))
    {
      if input.it.Some? && !input.acc.isEmpty(input.it.value) {
        var extra := ReadAll(input.acc, input.it.value);
        v := Add(v, BE(p.h([2] + ToBE(v, p.sl) + extra)), Cap(p.sl));
      }
      d, v := Hashgen(p.h, p.dl, mem, dacc, dst, v, p.sl);
      Update();
    }

    /** Steps 4 to 6. */
    method Update()
      requires Valid()
      modifies this
      ensures v == Add(old(v), BE(p.h([3] + ToBE(old(v), p.sl))) + c + old(counter), Cap(p.sl))
      ensures Valid() && c == old(c) && counter == old(counter) + 1
    {
      var hv := BE(p.h([3] + ToBE(v, p.sl)));
      AddTwice(v, hv, c, Cap(p.sl));
      AddTwice(v, hv + c, counter, Cap(p.sl));
      v := Add(v, hv, Cap(p.sl));
      v := Add(v, c, Cap(p.sl));
      v := Add(v, counter, Cap(p.sl));
      counter := counter + 1;
    }

    /** `generate`. What it writes is a front of the bytes of the flat algorithm, in
        requests of the largest length. It refuses to go on where a reseed is required;
        otherwise it stops where the destination passes for empty after a request, which
        is the end if `is_empty` is accurate. */
    method Generate<I(!new), A(!new)>(mem: array<byte>, dacc: Access<I, nat>, dst: I, input: Input<A>)
      returns (r: Result<()>, d: I, ghost j: nat)
      requires Valid() && IsAccess(dacc) && InputOk(input) && Within(dacc.view(dst), mem.Length)
      modifies this, mem
      ensures Valid()
      ensures var (out, s') := Requests(p, old(Snap()), Extra(input), |dacc.view(dst)|);
              && j <= |out| && Past(dacc, dacc.view(dst), j, d) && mem[..] == Put(old(mem[..]), dacc.view(dst), out, j)
              && (r.Ok? ==> dacc.isEmpty(d))
              && (r.Err? ==> r.error == ReseedRequired && j == |out| < |dacc.view(dst)| && Snap() == s')
              && (Accurate(dacc) ==> (r.Ok? <==> |out| == |dacc.view(dst)|) && j == |out| && Snap() == s')
      ensures dacc.isEmpty(dst) ==> r.Ok? && j == 0 && Snap() == old(Snap())
      ensures OnWay(dacc, dst, p.dl, d)
      ensures Snap() == Requests(p, old(Snap()), Extra(input), j).1
    {
      ghost var extra := Extra(input);
      ghost var all := Requests(p, Snap(), extra, |dacc.view(dst)|);
      assert all.0[0..] == all.0;
      ghost var s0 := Snap();
      r, d, j := GenerateLoop(mem, dacc, dst, input, extra, all);
      assert StateAfter(p, s0, extra, |dacc.view(dst)|, j, Snap());
    }

    method GenerateLoop<I(!new), A(!new)>(mem: array<byte>, dacc: Access<I, nat>, dst: I, input: Input<A>,
                                          ghost extra: seq<byte>, ghost all: (seq<byte>, State))
      returns (r: Result<()>, d: I, ghost j: nat)
      requires InputOk(input) && extra == Extra(input)
      requires Valid() && IsAccess(dacc) && Within(dacc.view(dst), mem.Length)
      requires Reached(p, Snap(), extra, |dacc.view(dst)|, all, 0)
      modifies this, mem
      ensures Valid() && j <= |all.0| && Past(dacc, dacc.view(dst), j, d) && mem[..] == Put(old(mem[..]), dacc.view(dst), all.0, j)
      ensures r.Ok? ==> dacc.isEmpty(d)
      ensures r.Err? ==> r.error == ReseedRequired && j < |dacc.view(dst)|
      ensures r.Err? || j == |dacc.view(dst)| ==> j == |all.0| && Snap() == all.1
      ensures dacc.isEmpty(dst) ==> r.Ok? && j == 0 && Snap() == old(Snap())
      ensures OnWay(dacc, dst, p.dl, d)
      ensures StateAfter(p, old(Snap()), extra, |dacc.view(dst)|, j, Snap())
    {
      ghost var D, m0 := dacc.view(dst), mem[..];
      ghost var s0 := Snap();
      NoneYet(p, s0, extra, |D|);
      PastStart(dacc, dst);
      d, j := dst, 0;
      while !dacc.isEmpty(d)
        invariant Valid() && Past(dacc, D, j, d) && Reached(p, Snap(), extra, |D|, all, j)
        invariant mem[..] == Put(m0, D, all.0, j)
        invariant dacc.isEmpty(dst) ==> d == dst && j == 0 && Snap() == old(Snap())
        invariant OnWay(dacc, dst, p.dl, d) && StateAfter(p, s0, extra, |D|, j, Snap())
        decreases |D| - j
      {
        if counter > MAX_REQUESTS {
          ReachEnd(p, Snap(), extra, |D|, all, j);
          return Err(ReseedRequired), d, j;
        }
        ghost var k;
        d, k := GenerateNext(mem, dacc, d, input, extra, D, m0, all, j, dst, s0);
        j := j + k;
      }
      if j == |D| { ReachEnd(p, Snap(), extra, |D|, all, j); }
      return Ok(()), d, j;
    }

    method GenerateNext<I(!new), A(!new)>(mem: array<byte>, dacc: Access<I, nat>, dst: I, input: Input<A>, ghost extra: seq<byte>,
                                          ghost D: seq<nat>, ghost m0: seq<byte>, ghost all: (seq<byte>, State), ghost j: nat,
                                          ghost from: I, ghost s0: State)
      returns (d: I, ghost k: nat)
      requires InputOk(input) && extra == Extra(input)
      requires Valid() && IsAccess(dacc) && Within(D, |m0|) && counter <= MAX_REQUESTS && !dacc.isEmpty(dst)
      requires Past(dacc, D, j, dst) && Reached(p, Snap(), extra, |D|, all, j) && mem[..] == Put(m0, D, all.0, j)
      requires OnWay(dacc, from, p.dl, dst) && StateAfter(p, s0, extra, |D|, j, Snap())
      modifies this, mem
      ensures k > 0 && Valid() && Past(dacc, D, j + k, d) && Reached(p, Snap(), extra, |D|, all, j + k)
      ensures mem[..] == Put(m0, D, all.0, j + k)
      ensures OnWay(dacc, from, p.dl, d) && StateAfter(p, s0, extra, |D|, j + k, Snap())
    {
      assert dacc.view(dst) != [];
      k := Min(MaxLen(p.dl), |D| - j);
      RequestOn(p, Snap(), extra, dacc, D, dst, m0, all, j, k);
      StateOn(p, s0, extra, |D|, j, Snap(), k);
      d := GenerateOne(mem, dacc, dst, input);
      PastTwice(dacc, D, j, dst, k, d);
      ReachOn(dacc, from, dst, d);
      DeliveredOn(dacc, from, dst, d, p.dl);
      GoOn(dacc, from, p.dl, dst, d);
    }
  }

  /** `instantiate`. */
  method Instantiate(h: Hash, dl: nat, minEntropy: nat, entropy: seq<byte>, nonce: Option<seq<byte>>, personalization: Option<seq<byte>>)
    returns (r: Result<HashDrbgRng>)
    requires IsHash(h, dl)
    ensures r.Err? <==> |entropy| < minEntropy || dl > 64
    ensures r == Err(InsufficientSeedLength) <==> |entropy| < minEntropy
    ensures r.Ok? ==>
      && fresh(r.value) && r.value.Valid() && r.value.minEntropy == minEntropy
      && r.value.p == Params(h, dl, if dl <= 32 then 55 else 110)
      && r.value.Snap() == Seeded(r.value.p, entropy + (if nonce.Some? then nonce.value else [])
                                             + (if personalization.Some? then personalization.value else []))
  {
    if |entropy| < minEntropy { return Err(InsufficientSeedLength); }
    if dl > 64 { return Err(UnsupportedSecurityStrength); }
    var rng := new HashDrbgRng(Params(h, dl, if dl <= 32 then 55 else 110), minEntropy);
    rng.Seed(entropy + OptBytes(nonce) + OptBytes(personalization));
    return Ok(rng);
  }

  /** `generate` on a destination of which it is known where it passes for empty. */
  method FillPredicted<I(!new), A(!new)>(rng: HashDrbgRng, mem: array<byte>, dacc: Access<I, nat>, dst: I, input: Input<A>,
                                         ghost stops: nat -> bool)
    returns (r: Result<()>, d: I, ghost j: nat)
    requires InputOk(input)
    requires rng.Valid() && IsAccess(dacc) && Within(dacc.view(dst), mem.Length) && Predicts(dacc, dst, rng.p.dl, stops)
    modifies rng, mem
    ensures j <= |dacc.view(dst)|
    ensures var out := Requests(rng.p, old(rng.Snap()), Extra(input), |dacc.view(dst)|).0;
            j <= |out| && mem[..] == Put(old(mem[..]), dacc.view(dst), out, j)
    ensures r.Err? ==> r.error == ReseedRequired
    ensures r.Ok? ==> |dacc.view(dst)| - j == StopsWith(|dacc.view(dst)|, stops, rng.p.dl)
  {
    r, d, j := rng.Generate(mem, dacc, dst, input);
    if r.Ok? { StopHere(dacc, dst, rng.p.dl, d); }
  }

  /** Through a mutable reference, a destination whose leading iterator is exhausted
      gets nothing at all, and this passes for success, whatever is behind it. */
  method NothingThroughReference<A(!new)>(rng: HashDrbgRng, mem: array<byte>, dst: SliceIter<nat>, input: Input<A>) returns (r: Result<()>)
    requires InputOk(input) && rng.Valid() && Within(View(dst), mem.Length) && View(Leading(dst)) == []
    modifies rng, mem
    ensures r.Ok? && mem[..] == old(mem[..])
  {
    ItersKeepPromises<nat>();
    ByRefKeepsPromises(Iters<nat>());
    ByRefIsEmpty(dst);
    var acc := ByRef(Iters<nat>());
    assert acc.view(dst) == View(dst) && acc.isEmpty(dst);
    var d;
    ghost var j;
    r, d, j := rng.Generate(mem, acc, dst, input);
  }
}
