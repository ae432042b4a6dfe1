/** A random number generator that reseeds its child from a parent
    (crypto/src/rng/chained.rs, crypto/src/rng/mod.rs). */
module ChainedRng {
  import opened Results
  import opened Bytes
  import opened SliceMemory
  import opened SliceAccess
  import opened IoSliceOps
  import opened HashDrbg
  import opened DrbgGenerate

  /** The parent: the entropy of its `i`-th call, or a failure. */
  type Parent = nat -> Option<seq<byte>>
  ghost predicate IsParent(parent: Parent, len: nat) {
    forall i {:trigger parent(i)} :: parent(i).Some? ==> |parent(i).value| == len
  }
  ghost predicate NeverFails(parent: Parent) { forall i {:trigger parent(i)} :: parent(i).Some? }

  // ---- specification ----

  /** A reseedable child with states `S`: the bytes it serves of a request up to where
      it requires a reseed, its state after a reseed, and whether it is ready to
      serve. */
  datatype Child<!S> = Child(serve: (S, nat) -> (seq<byte>, S), reseed: (S, seq<byte>) -> S, ready: S -> bool, valid: S -> bool)

  ghost predicate ServeOk<S>(c: Child<S>, s: S, n: nat) {
    c.valid(s) ==>
      var (out, s') := c.serve(s, n);
      c.valid(s') && |out| <= n && (c.ready(s) && n > 0 ==> |out| > 0)
  }
  ghost predicate ReseedOk<S>(c: Child<S>, s: S, e: seq<byte>) { c.valid(c.reseed(s, e)) && c.ready(c.reseed(s, e)) }
  ghost predicate IsChild<S(!new)>(c: Child<S>) {
    && (forall s, n: nat {:trigger c.serve(s, n)} :: ServeOk(c, s, n))
    && (forall s, e {:trigger c.reseed(s, e)} :: ReseedOk(c, s, e))
  }

  /** `n` bytes of the child, reseeded wherever that is required; fewer only if the
      parent fails. */
  ghost function Chained<S(!new)>(c: Child<S>, s: S, n: nat, parent: Parent, i: nat): (x: seq<byte>)
    requires IsChild(c) && c.valid(s)
    ensures |x| <= n && (NeverFails(parent) ==> |x| == n)
    decreases n, !c.ready(s)
  {
    assert ServeOk(c, s, n);
    var (out, s1) := c.serve(s, n);
    if |out| == n || parent(i).None? then out
    else
      assert ReseedOk(c, s1, parent(i).value);
      out + Chained(c, c.reseed(s1, parent(i).value), n - |out|, parent, i + 1)
  }

  /** In state `s`, with `j` bytes out, what remains is the rest of `all`. */
  ghost predicate ChainReached<S(!new)>(c: Child<S>, s: S, n: nat, parent: Parent, i: nat, all: seq<byte>, j: nat)
    requires IsChild(c)
  {
    && c.valid(s) && j <= n && j <= |all|
    && forall t {:trigger Chained(c, t, n - j, parent, i)} :: t == s ==> Chained(c, t, n - j, parent, i) == all[j..]
  }

  lemma ReachServed<S(!new)>(c: Child<S>, s: S, n: nat, parent: Parent, i: nat, all: seq<byte>, j: nat)
    requires IsChild(c) && ChainReached(c, s, n, parent, i, all, j)
    ensures var (out, s1) := c.serve(s, n - j);
            && j + |out| <= |all| && (forall k :: 0 <= k < |out| ==> out[k] == all[j + k])
            && (parent(i).None? ==> j + |out| == |all|)
            && (|out| < n - j && parent(i).Some? ==>
                  ChainReached(c, c.reseed(s1, parent(i).value), n, parent, i + 1, all, j + |out|))
  {
    assert ServeOk(c, s, n - j);
    var (out, s1) := c.serve(s, n - j);
    assert Chained(c, s, n - j, parent, i) == all[j..];
    forall k | 0 <= k < |out| ensures out[k] == all[j + k] { assert all[j..][k] == out[k]; }
    if |out| < n - j && parent(i).Some? {
      assert ReseedOk(c, s1, parent(i).value);
      assert all[j..][|out|..] == all[j + |out|..];
      assert n - j - |out| == n - (j + |out|);
    }
  }

  // ---- the Hash_DRBG as a child ----

  ghost function ReseededWith(p: Params, s: State, entropy: seq<byte>): (s': State)
    requires ParamsOk(p)
    ensures StateOk(p, s') && s'.counter == 1
  {
    Seeded(p, [1] + ToBE(s.v, p.sl) + entropy)
  }

  /** The seed material is a one, V and the entropy. */
  lemma ReseededIs(p: Params, s: State, entropy: seq<byte>, w: seq<byte>)
    requires ParamsOk(p) && Starts(w, 1, s.v, p.sl) && w[1 + p.sl..] == entropy
    ensures ReseededWith(p, s, entropy) == Seeded(p, w)
  {
    StartsIs(w, 1, s.v, p.sl);
  }

  ghost function DrbgServe(p: Params, extra: seq<byte>, s: State, n: nat): (seq<byte>, State)
    requires ParamsOk(p)
  {
    if StateOk(p, s) then Requests(p, s, extra, n) else ([], s)
  }

  ghost function DrbgChild(p: Params, extra: seq<byte>): Child<State>
    requires ParamsOk(p)
  {
    Child((s: State, n: nat) => DrbgServe(p, extra, s, n), (s: State, e: seq<byte>) => ReseededWith(p, s, e),
          (s: State) => s.counter <= MAX_REQUESTS, (s: State) => StateOk(p, s))
  }

  lemma DrbgServes(p: Params, extra: seq<byte>, s: State, n: nat)
    requires ParamsOk(p) && StateOk(p, s)
    ensures var (out, s') := Requests(p, s, extra, n);
            |out| <= n && StateOk(p, s') && (s.counter <= MAX_REQUESTS && n > 0 ==> |out| > 0)
  {
    MaxLenPositive(p.dl);
  }

  lemma DrbgIsChild(p: Params, extra: seq<byte>)
    requires ParamsOk(p)
    ensures IsChild(DrbgChild(p, extra))
  {
    var c := DrbgChild(p, extra);
    forall s: State, n: nat ensures ServeOk(c, s, n) {
      if StateOk(p, s) { DrbgServes(p, extra, s, n); }
    }
    forall s: State, e ensures ReseedOk(c, s, e) { assert c.reseed(s, e) == ReseededWith(p, s, e); }
  }

  /** `c` is the Hash_DRBG with these parameters. */
  ghost predicate ServesFor(c: Child<State>, p: Params, extra: seq<byte>) {
    forall q {:trigger DrbgChild(q, extra)} :: q == p && ParamsOk(p) ==> c == DrbgChild(q, extra)
  }

  lemma ChildReseeds(c: Child<State>, p: Params, extra: seq<byte>, s: State, e: seq<byte>)
    requires ParamsOk(p) && ServesFor(c, p, extra)
    ensures c.reseed(s, e) == ReseededWith(p, s, e)
  {
    assert c == DrbgChild(p, extra);
  }
  lemma ChildReady(c: Child<State>, p: Params, extra: seq<byte>, s: State)
    requires ParamsOk(p) && ServesFor(c, p, extra)
    ensures c.ready(s) <==> s.counter <= MAX_REQUESTS
    ensures c.valid(s) <==> StateOk(p, s)
  {
    assert c == DrbgChild(p, extra);
  }

  /** What this additional input amounts to. */
  ghost predicate Amounts<A(!new)>(input: Input<A>, extra: seq<byte>) {
    forall i: Input<A> {:trigger Extra(i)} :: i == input ==> InputOk(i) && Extra(i) == extra
  }

  class ChainedHashDrbg {
    const child: HashDrbgRng
    const parent: Parent
    var calls: nat

    ghost predicate Valid() reads this, child { child.Valid() && IsParent(parent, child.minEntropy) }

    constructor (parentRng: Parent, childRng: HashDrbgRng)
      requires childRng.Valid() && IsParent(parentRng, childRng.minEntropy)
      ensures Valid() && parent == parentRng && child == childRng && calls == 0
    {
      parent, child, calls := parentRng, childRng, 0;
    }

    /** `reseed_from_parent`. */
    method ReseedFromParent() returns (r: Result<()>)
      requires Valid()
      modifies this, child
      ensures Valid() && calls == old(calls) + 1
      ensures match parent(old(calls))
              case Some(entropy) => r == Ok(()) && child.Snap() == ReseededWith(child.p, old(child.Snap()), entropy)
              case None => r == Err(RngFailure) && child.Snap() == old(child.Snap())
    {
      var entropy := parent(calls);
      calls := calls + 1;
      if entropy.None? { return Err(RngFailure); }
      r := child.Reseed(entropy.value, []);
      assert [1] + ToBE(old(child.v), child.p.sl) + entropy.value + [] == [1] + ToBE(old(child.v), child.p.sl) + entropy.value;
    }

    /** `generate`: goes on at the first unwritten byte after every reseed, fills the
        whole destination unless the parent fails, and terminates. */
    method Generate<I(!new), A(!new)>(mem: array<byte>, dacc: Access<I, nat>, dst: I, input: Input<A>)
      returns (r: Result<()>, d: I, ghost j: nat)
      requires Valid() && InputOk(input) && IsAccess(dacc) && Within(dacc.view(dst), mem.Length)
      modifies this, child, mem
      ensures Valid() && IsChild(DrbgChild(child.p, Extra(input)))
      ensures var out := Chained(DrbgChild(child.p, Extra(input)), old(child.Snap()), |dacc.view(dst)|, parent, old(calls));
              && j <= |out| && Past(dacc, dacc.view(dst), j, d) && mem[..] == Put(old(mem[..]), dacc.view(dst), out, j)
              && (r.Ok? ==> dacc.isEmpty(d))
              && (r.Err? ==> r.error == RngFailure && j == |out| < |dacc.view(dst)|)
              && (Accurate(dacc) ==> (r.Ok? <==> |out| == |dacc.view(dst)|) && j == |out|)
      ensures NeverFails(parent) ==> r.Ok?
      ensures r.Ok? ==> forall stops {:trigger Predicts(dacc, dst, child.p.dl, stops)} ::
        Predicts(dacc, dst, child.p.dl, stops) ==> StopsWith(|dacc.view(dst)|, stops, child.p.dl) == |dacc.view(d)|
    {
      ghost var extra := Extra(input);
      DrbgIsChild(child.p, extra);
      ghost var c := DrbgChild(child.p, extra);
      ghost var all := Chained(c, child.Snap(), |dacc.view(dst)|, parent, calls);
      assert all[0..] == all;
      PastStart(dacc, dst);
      r, d, j := GenerateLoop(mem, dacc, dst, input, extra, c, all);
      if r.Ok? { StopHere(dacc, dst, child.p.dl, d); }
    }

    method GenerateLoop<I(!new), A(!new)>(mem: array<byte>, dacc: Access<I, nat>, dst: I, input: Input<A>, ghost extra: seq<byte>,
                                          ghost c: Child<State>, ghost all: seq<byte>)
      returns (r: Result<()>, d: I, ghost j: nat)
      requires Amounts(input, extra)
      requires Valid() && IsAccess(dacc) && Within(dacc.view(dst), mem.Length) && |all| <= |dacc.view(dst)|
      requires ServesFor(c, child.p, extra) && IsChild(c)
      requires ChainReached(c, child.Snap(), |dacc.view(dst)|, parent, calls, all, 0)
      modifies this, child, mem
      ensures Valid() && j <= |all| && Past(dacc, dacc.view(dst), j, d) && mem[..] == Put(old(mem[..]), dacc.view(dst), all, j)
      ensures r.Ok? ==> dacc.isEmpty(d)
      ensures r.Err? ==> r.error == RngFailure && j == |all| < |dacc.view(dst)| && !NeverFails(parent)
      ensures OnWay(dacc, dst, child.p.dl, d)
    {
      ghost var D, m0 := dacc.view(dst), mem[..];
      PastStart(dacc, dst);
      d, j := dst, 0;
      while !dacc.isEmpty(d)
        invariant Valid() && Past(dacc, D, j, d) && j <= |all| <= |D|
        invariant dacc.isEmpty(d) || ChainReached(c, child.Snap(), |D|, parent, calls, all, j)
        invariant mem[..] == Put(m0, D, all, j) && OnWay(dacc, dst, child.p.dl, d)
        decreases !dacc.isEmpty(d), |D| - j, child.counter > MAX_REQUESTS
      {
        ghost var k;
        assert dacc.view(d) != [];
        ghost var via := d;
        r, d, k := GenerateNext(mem, dacc, d, input, extra, c, D, m0, all, j);
        OnWayOn(dacc, dst, child.p.dl, via, d);
        j := j + k;
        if r.Err? { return r, d, j; }
      }
      return Ok(()), d, j;
    }

    /** One round: what the child delivers, and a reseed if it asks for one. */
    method GenerateNext<I(!new), A(!new)>(mem: array<byte>, dacc: Access<I, nat>, dst: I, input: Input<A>, ghost extra: seq<byte>,
                                          ghost c: Child<State>, ghost D: seq<nat>, ghost m0: seq<byte>, ghost all: seq<byte>, ghost j: nat)
      returns (r: Result<()>, d: I, ghost k: nat)
      requires Amounts(input, extra)
      requires Valid() && IsAccess(dacc) && Within(D, |m0|) && Past(dacc, D, j, dst) && j < |D|
      requires ServesFor(c, child.p, extra) && IsChild(c)
      requires ChainReached(c, child.Snap(), |D|, parent, calls, all, j) && mem[..] == Put(m0, D, all, j)
      modifies this, child, mem
      ensures Valid() && Past(dacc, D, j + k, d) && j + k <= |all| && mem[..] == Put(m0, D, all, j + k)
      ensures r.Err? ==> r.error == RngFailure && j + k == |all| < |D| && !NeverFails(parent)
      ensures r.Ok? && !dacc.isEmpty(d) ==>
        && ChainReached(c, child.Snap(), |D|, parent, calls, all, j + k)
        && child.counter == 1 && (k == 0 ==> old(child.counter) > MAX_REQUESTS)
      ensures OnWay(dacc, dst, child.p.dl, d)
    {
      ghost var s0 := child.Snap();
      ReachServed(c, s0, |D|, parent, calls, all, j);
      r, d, k := ServeChild(mem, dacc, dst, input, extra, c, D, m0, all, j);
      if r.Err? {
        assert ServeOk(c, s0, |D| - j);
        ChildReady(c, child.p, extra, s0);
        r := ReseedChild(extra, c);
      }
    }

    method ReseedChild(ghost extra: seq<byte>, ghost c: Child<State>) returns (r: Result<()>)
      requires Valid() && ServesFor(c, child.p, extra)
      modifies this, child
      ensures Valid() && calls == old(calls) + 1 && (r.Ok? <==> parent(old(calls)).Some?) && (r.Err? ==> r.error == RngFailure)
      ensures r.Ok? ==> child.Snap() == c.reseed(old(child.Snap()), parent(old(calls)).value) && child.counter == 1
    {
      if parent(calls).Some? { ChildReseeds(c, child.p, extra, child.Snap(), parent(calls).value); }
      r := ReseedFromParent();
    }

    /** The child's part of it. */
    method ServeChild<I(!new), A(!new)>(mem: array<byte>, dacc: Access<I, nat>, dst: I, input: Input<A>, ghost extra: seq<byte>,
                                        ghost c: Child<State>, ghost D: seq<nat>, ghost m0: seq<byte>, ghost all: seq<byte>, ghost j: nat)
      returns (r: Result<()>, d: I, ghost k: nat)
      requires Amounts(input, extra)
      requires Valid() && IsAccess(dacc) && Within(D, |m0|) && Past(dacc, D, j, dst) && ServesFor(c, child.p, extra)
      requires var out := c.serve(child.Snap(), |D| - j).0;
               j + |out| <= |all| && forall k :: 0 <= k < |out| ==> out[k] == all[j + k]
      requires mem[..] == Put(m0, D, all, j)
      modifies child, mem
      ensures Valid() && Past(dacc, D, j + k, d) && j + k <= |all| && mem[..] == Put(m0, D, all, j + k)
      ensures r.Ok? ==> dacc.isEmpty(d)
      ensures r.Err? ==> var (out, s') := c.serve(old(child.Snap()), |D| - j); k == |out| < |D| - j && child.Snap() == s'
      ensures OnWay(dacc, dst, child.p.dl, d)
    {
      ghost var out := c.serve(child.Snap(), |D| - j).0;
      PastWithin(dacc, D, j, dst, |m0|);
      r, d, k := CallChild(mem, dacc, dst, input, extra, c);
      PastTwice(dacc, D, j, dst, k, d);
      PutPast(dacc, D, j, dst, m0, all, out, k);
    }

    method CallChild<I(!new), A(!new)>(mem: array<byte>, dacc: Access<I, nat>, dst: I, input: Input<A>, ghost extra: seq<byte>,
                                       ghost c: Child<State>)
      returns (r: Result<()>, d: I, ghost k: nat)
      requires Amounts(input, extra)
      requires Valid() && IsAccess(dacc) && Within(dacc.view(dst), mem.Length) && ServesFor(c, child.p, extra)
      modifies child, mem
      ensures Valid()
      ensures var (out, s') := c.serve(old(child.Snap()), |dacc.view(dst)|);
              && k <= |out| && Past(dacc, dacc.view(dst), k, d) && mem[..] == Put(old(mem[..]), dacc.view(dst), out, k)
              && (r.Ok? ==> dacc.isEmpty(d))
              && (r.Err? ==> k == |out| < |dacc.view(dst)| && child.Snap() == s')
      ensures OnWay(dacc, dst, child.p.dl, d)
    {
      assert Extra(input) == extra;
      assert c == DrbgChild(child.p, extra);
      r, d, k := child.Generate(mem, dacc, dst, input);
    }
  }
}
