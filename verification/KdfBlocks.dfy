/** The block generators KDFa, KDFe and MGF1 (crypto/src/kdf/tcg_tpm2_kdf_a.rs,
    crypto/src/kdf/tcg_tpm2_kdf_e.rs, crypto/src/kdf/mgf1.rs). */
module KdfBlocks {
  import opened Arith
  import opened NumberTheory
  import opened Cmpa
  import opened Results
  import opened Bytes
  import opened Hashing
  import opened IoSlices
  import opened Kdf

  // ---- KDFa and KDFe ----

  function DivCeil8(bits: nat): nat { (bits + 7) / 8 }

  /** The bytes still to be generated after `i` blocks. */
  function RemainingLen(bits: nat, bl: nat, i: nat): nat {
    if DivCeil8(bits) > i * bl then DivCeil8(bits) - i * bl else 0
  }

  /** Clearing the excess bits leaves the lowest `bits % 8`. */
  function KeepBits(b: byte, bits: nat): byte {
    if bits % 8 == 0 then b else b % [1, 2, 4, 8, 16, 32, 64, 128][bits % 8]
  }

  /** What is generated after `i` blocks: the digest of an input that has the counter
      in it, the first byte of the first block masked, and nothing but zeros after the
      key's end. */
  function BlockOf(h: Hash, bits: nat, bl: nat, input: nat -> seq<byte>, i: nat): (b: seq<byte>)
    ensures forall j :: RemainingLen(bits, bl, i) <= j < |b| ==> b[j] == 0
  {
    var d := h(input(i + 1));
    var m := if i == 0 && |d| > 0 then d[0 := KeepBits(d[0], bits)] else d;
    var n := Min(|m|, RemainingLen(bits, bl, i));
    m[..n] + Zeros(|m| - n)
  }

  /** Generators that count their blocks from one. */
  function CountingKdf(h: Hash, bits: nat, bl: nat, input: nat -> seq<byte>): BlockKdf<nat> {
    BlockKdf(bl, (i: nat) => RemainingLen(bits, bl, i),
      (i: nat) => NextBlock(h, bits, bl, input, i))
  }
  function NextBlock(h: Hash, bits: nat, bl: nat, input: nat -> seq<byte>, i: nat): Result<(seq<byte>, nat, nat)> {
    if RemainingLen(bits, bl, i) == 0 then Err(Internal)
    else Ok((BlockOf(h, bits, bl, input, i), Min(bl, RemainingLen(bits, bl, i)), i + 1))
  }

  lemma RemainingNext(bits: nat, bl: nat, i: nat)
    ensures RemainingLen(bits, bl, i + 1) == RemainingLen(bits, bl, i) - Min(bl, RemainingLen(bits, bl, i))
  {
    MulDistributes(bl, i, 1);
  }

  /** The state counts the blocks. */
  ghost predicate CountsUp(kdf: BlockKdf<nat>) {
    forall i: nat {:trigger kdf.generate(i)} :: kdf.remaining(i) > 0 && kdf.generate(i).Ok? ==> kdf.generate(i).value.2 == i + 1
  }

  lemma CountingKdfOk(h: Hash, bits: nat, bl: nat, input: nat -> seq<byte>)
    requires IsHash(h, bl)
    ensures IsBlockKdf(CountingKdf(h, bits, bl, input)) && CountsUp(CountingKdf(h, bits, bl, input))
  {
    var kdf := CountingKdf(h, bits, bl, input);
    forall i: nat ensures BlockOk(kdf, i) {
      RemainingNext(bits, bl, i);
      assert |h(input(i + 1))| == bl;
    }
  }

  lemma BlockByte(h: Hash, bits: nat, bl: nat, input: nat -> seq<byte>, i: nat, j: nat)
    requires IsHash(h, bl) && j < bl && j < RemainingLen(bits, bl, i)
    ensures var b := BlockOf(h, bits, bl, input, i);
            && |b| == |h(input(i + 1))| == bl
            && b[j] == if i == 0 && j == 0 then KeepBits(h(input(1))[0], bits) else h(input(i + 1))[j]
  {
    assert |h(input(i + 1))| == bl;
  }

  /** Byte `o` of the block `q` blocks ahead is at `q * blockLen + o` in the stream. */
  lemma {:induction false} StreamOfBlocks(kdf: BlockKdf<nat>, i: nat, q: nat, o: nat, j: nat)
    requires IsBlockKdf(kdf) && CountsUp(kdf)
    requires o < kdf.blockLen && j == q * kdf.blockLen + o && j < |Stream(kdf, i)|
    ensures var g := kdf.generate(i + q); g.Ok? && kdf.remaining(i + q) > o && |g.value.0| > o && Stream(kdf, i)[j] == g.value.0[o]
    decreases q
  {
    assert BlockOk(kdf, i);
    if q > 0 {
      MulAtLeast(kdf.blockLen, q);
      MulDistributes(kdf.blockLen, q - 1, 1);
      StreamOfBlocks(kdf, i + 1, q - 1, o, j - kdf.blockLen);
      assert i + 1 + (q - 1) == i + q;
    }
  }

  /** The stream, byte by byte: the concatenated digests of the inputs with counter
      one, two and so on, cut off at the key's length, the first byte masked. */
  lemma StreamIs(h: Hash, bits: nat, bl: nat, input: nat -> seq<byte>, q: nat, o: nat, j: nat)
    requires IsHash(h, bl) && o < bl && j == q * bl + o && j < DivCeil8(bits)
    ensures IsBlockKdf(CountingKdf(h, bits, bl, input))
    ensures var x, d := Stream(CountingKdf(h, bits, bl, input), 0), h(input(q + 1));
            && |x| == DivCeil8(bits) && |d| == bl
            && x[j] == if q == 0 && o == 0 then KeepBits(d[0], bits) else d[o]
  {
    StreamByte(h, bits, bl, input, q, o, j);
    BlockByte(h, bits, bl, input, q, o);
  }
  lemma StreamByte(h: Hash, bits: nat, bl: nat, input: nat -> seq<byte>, q: nat, o: nat, j: nat)
    requires IsHash(h, bl) && o < bl && j == q * bl + o && j < DivCeil8(bits)
    ensures IsBlockKdf(CountingKdf(h, bits, bl, input)) && o < RemainingLen(bits, bl, q)
    ensures var x, b := Stream(CountingKdf(h, bits, bl, input), 0), BlockOf(h, bits, bl, input, q);
            |x| == DivCeil8(bits) && o < |b| && x[j] == b[o]
  {
    StreamLen(h, bits, bl, input);
    CountingKdfOk(h, bits, bl, input);
    GeneratesBlock(h, bits, bl, input, q);
    StreamAtBlock(CountingKdf(h, bits, bl, input), bl, q, o, j, RemainingLen(bits, bl, q), BlockOf(h, bits, bl, input, q));
  }
  lemma StreamAtBlock(kdf: BlockKdf<nat>, bl: nat, q: nat, o: nat, j: nat, r: nat, b: seq<byte>)
    requires IsBlockKdf(kdf) && CountsUp(kdf) && kdf.blockLen == bl
    requires o < bl && j == q * bl + o && j < |Stream(kdf, 0)|
    requires kdf.remaining(q) == r && (kdf.generate(q).Ok? ==> kdf.generate(q).value.0 == b)
    ensures o < r && o < |b| && Stream(kdf, 0)[j] == b[o]
  {
    StreamOfBlocks(kdf, 0, q, o, j);
  }
  lemma StreamLen(h: Hash, bits: nat, bl: nat, input: nat -> seq<byte>)
    requires IsHash(h, bl)
    ensures IsBlockKdf(CountingKdf(h, bits, bl, input)) && |Stream(CountingKdf(h, bits, bl, input), 0)| == DivCeil8(bits)
  {
    CountingKdfOk(h, bits, bl, input);
    assert RemainingLen(bits, bl, 0) == DivCeil8(bits);
  }
  lemma GeneratesBlock(h: Hash, bits: nat, bl: nat, input: nat -> seq<byte>, q: nat)
    ensures var kdf := CountingKdf(h, bits, bl, input);
            && kdf.remaining(q) == RemainingLen(bits, bl, q)
            && (kdf.generate(q).Ok? ==> kdf.generate(q).value.0 == BlockOf(h, bits, bl, input, q))
  {
    assert CountingKdf(h, bits, bl, input).generate(q) == NextBlock(h, bits, bl, input, q);
  }

  /** What KDFa hashes for block `i` (section 11.4.10.2 of TCG TPM2 Part 1): the
      label is separated by a zero byte unless it is empty or ends in one. */
  function KdfAInput(lab: seq<byte>, u: Option<seq<byte>>, v: Option<seq<byte>>, bits: nat, i: nat): seq<byte> {
    var sep := if |lab| > 0 && lab[|lab| - 1] != 0 then [0] else [];
    Be32(i) + lab + sep + OptBytes(u) + OptBytes(v) + Be32(bits)
  }

  function KdfA(hmac: Hash, bl: nat, lab: seq<byte>, u: Option<seq<byte>>, v: Option<seq<byte>>, bits: nat): BlockKdf<nat> {
    CountingKdf(hmac, bits, bl, (i: nat) => KdfAInput(lab, u, v, bits, i))
  }

  /** What KDFe hashes for block `i` (section 11.4.10.3 of TCG TPM2 Part 1). */
  function KdfEInput(z: seq<byte>, usage: seq<byte>, u: seq<byte>, v: seq<byte>, i: nat): seq<byte> {
    Be32(i) + z + usage + [0] + u + v
  }

  function KdfE(hash: Hash, bl: nat, z: seq<byte>, usage: seq<byte>, u: seq<byte>, v: seq<byte>, bits: nat): BlockKdf<nat> {
    CountingKdf(hash, bits, bl, (i: nat) => KdfEInput(z, usage, u, v, i))
  }

  ghost predicate AgreeAt<K>(f: BlockKdf<K>, g: BlockKdf<K>, k: K) {
    f.remaining(k) == g.remaining(k) && f.generate(k) == g.generate(k)
  }
  ghost predicate Agree<K(!new)>(f: BlockKdf<K>, g: BlockKdf<K>) { forall k {:trigger AgreeAt(f, g, k)} :: AgreeAt(f, g, k) }

  /** What KDFa has to hash for a block: the number of the block in four bytes, the label,
      a zero byte unless the label is empty or ends in one, the contexts in this order,
      and the length in bits in four bytes. */
  ghost predicate IsKdfAInput(w: seq<byte>, lab: seq<byte>, contextU: Option<seq<byte>>, contextV: Option<seq<byte>>, bits: nat, i: nat) {
    var u, v := if contextU.Some? then contextU.value else [], if contextV.Some? then contextV.value else [];
    var sep := if lab == [] || lab[|lab| - 1] == 0 then 0 else 1;
    var p, q := 4 + |lab| + sep, 4 + |lab| + sep + |u|;
    && |w| == q + |v| + 4
    && BE(w[..4]) == i && w[4..4 + |lab|] == lab && (sep == 1 ==> w[4 + |lab|] == 0)
    && w[p..q] == u && w[q..q + |v|] == v && BE(w[q + |v|..]) == bits
  }
  lemma KdfAInputIs(w: seq<byte>, lab: seq<byte>, u: Option<seq<byte>>, v: Option<seq<byte>>, bits: nat, i: nat)
    requires IsKdfAInput(w, lab, u, v, bits, i)
    ensures w == KdfAInput(lab, u, v, bits, i)
  {
    var sep: seq<byte> := if |lab| > 0 && lab[|lab| - 1] != 0 then [0] else [];
    OnlyBytes(i, w[..4]);
    OnlyBytes(bits, w[|w| - 4..]);
    LaidOut(w, Be32(i), lab, sep, OptBytes(u), OptBytes(v), Be32(bits));
  }
  lemma LaidOut(w: seq<byte>, a: seq<byte>, lab: seq<byte>, sep: seq<byte>, x: seq<byte>, y: seq<byte>, b: seq<byte>)
    requires |a| == 4 && |w| == 4 + |lab| + |sep| + |x| + |y| + |b|
    requires w[..4] == a && w[4..4 + |lab|] == lab && (sep == [] || (sep == [0] && w[4 + |lab|] == 0))
    requires w[4 + |lab| + |sep|..4 + |lab| + |sep| + |x|] == x
    requires w[4 + |lab| + |sep| + |x|..4 + |lab| + |sep| + |x| + |y|] == y && w[4 + |lab| + |sep| + |x| + |y|..] == b
    ensures w == a + lab + sep + x + y + b
  {
    var l, p := 4 + |lab|, 4 + |lab| + |sep|;
    assert w[l..p] == sep;
    SixPieces(w, 4, l, p, p + |x|, p + |x| + |y|);
  }
  lemma SixPieces(w: seq<byte>, a: nat, b: nat, c: nat, d: nat, e: nat)
    requires a <= b <= c <= d <= e <= |w|
    ensures w == w[..a] + w[a..b] + w[b..c] + w[c..d] + w[d..e] + w[e..]
  {
    PrefixOn(w, a, b);
    PrefixOn(w, b, c);
    PrefixOn(w, c, d);
    PrefixOn(w, d, e);
    WholeOf(w, e);
  }
  lemma WholeOf(w: seq<byte>, e: nat)
    requires e <= |w|
    ensures w == w[..e] + w[e..]
  {
  }

  /** What KDFe has to hash: the number of the block in four bytes, Z, the usage, a zero
      byte, and both party infos. */
  ghost predicate IsKdfEInput(w: seq<byte>, z: seq<byte>, usage: seq<byte>, u: seq<byte>, v: seq<byte>, i: nat) {
    var a, p := 4 + |z|, 4 + |z| + |usage| + 1;
    && |w| == p + |u| + |v|
    && BE(w[..4]) == i && w[4..a] == z && w[a..p - 1] == usage && w[p - 1] == 0 && w[p..p + |u|] == u && w[p + |u|..] == v
  }
  lemma KdfEInputIs(w: seq<byte>, z: seq<byte>, usage: seq<byte>, u: seq<byte>, v: seq<byte>, i: nat)
    requires IsKdfEInput(w, z, usage, u, v, i)
    ensures w == KdfEInput(z, usage, u, v, i)
  {
    var a, p := 4 + |z|, 4 + |z| + |usage| + 1;
    OnlyBytes(i, w[..4]);
    SixPieces(w, 4, a, p - 1, p, p + |u|);
    assert w[p - 1..p] == [0];
  }

  /** Of a key whose length is not a multiple of eight bits, only the lowest bits of the
      first byte count. */
  lemma KeepBitsIs(b: byte, bits: nat)
    ensures Pow(2, bits % 8) > 0 && KeepBits(b, bits) == if bits % 8 == 0 then b else b % Pow(2, bits % 8)
  {
    PowPositive(2, bits % 8);
    if bits % 8 != 0 { PowTop(bits % 8); }
  }

  /** KDFa and KDFe, byte by byte. */
  lemma KdfAIs(hmac: Hash, bl: nat, lab: seq<byte>, u: Option<seq<byte>>, v: Option<seq<byte>>, bits: nat, q: nat, o: nat, j: nat,
               w: seq<byte>)
    requires IsHash(hmac, bl) && o < bl && j == q * bl + o && j < DivCeil8(bits)
    requires IsKdfAInput(w, lab, u, v, bits, q + 1)
    ensures IsBlockKdf(KdfA(hmac, bl, lab, u, v, bits)) && Pow(2, bits % 8) > 0
    ensures var x, d := Stream(KdfA(hmac, bl, lab, u, v, bits), 0), hmac(w);
            && |x| == (bits + 7) / 8 && |d| == bl
            && x[j] == if j == 0 && bits % 8 != 0 then d[0] % Pow(2, bits % 8) else d[o]
  {
    KdfAInputIs(w, lab, u, v, bits, q + 1);
    StreamIs(hmac, bits, bl, (i: nat) => KdfAInput(lab, u, v, bits, i), q, o, j);
    KeepBitsIs(hmac(w)[0], bits);
    FirstIsFirst(q, o, j, bl);
  }
  lemma KdfEIs(hash: Hash, bl: nat, z: seq<byte>, usage: seq<byte>, u: seq<byte>, v: seq<byte>, bits: nat, q: nat, o: nat, j: nat,
               w: seq<byte>)
    requires IsHash(hash, bl) && o < bl && j == q * bl + o && j < DivCeil8(bits)
    requires IsKdfEInput(w, z, usage, u, v, q + 1)
    ensures IsBlockKdf(KdfE(hash, bl, z, usage, u, v, bits)) && Pow(2, bits % 8) > 0
    ensures var x, d := Stream(KdfE(hash, bl, z, usage, u, v, bits), 0), hash(w);
            && |x| == (bits + 7) / 8 && |d| == bl
            && x[j] == if j == 0 && bits % 8 != 0 then d[0] % Pow(2, bits % 8) else d[o]
  {
    KdfEInputIs(w, z, usage, u, v, q + 1);
    StreamIs(hash, bits, bl, (i: nat) => KdfEInput(z, usage, u, v, i), q, o, j);
    KeepBitsIs(hash(w)[0], bits);
    FirstIsFirst(q, o, j, bl);
  }
  lemma FirstIsFirst(q: nat, o: nat, j: nat, bl: nat)
    requires o < bl && j == q * bl + o
    ensures j == 0 <==> q == 0 && o == 0
  {
    if q > 0 { MulAtLeast(bl, q); }
  }

  /** Generators that agree on every block give the same stream. */
  lemma {:induction false} SameStream<K(!new)>(f: BlockKdf<K>, g: BlockKdf<K>, k: K)
    requires IsBlockKdf(f) && IsBlockKdf(g)
    requires Agree(f, g)
    ensures Stream(f, k) == Stream(g, k)
    decreases f.remaining(k)
  {
    assert BlockOk(f, k) && AgreeAt(f, g, k);
    if f.remaining(k) > 0 { SameStream(f, g, f.generate(k).value.2); }
  }

  /** A zero byte at the end of a label makes no difference. */
  lemma LabelTerminator(hmac: Hash, bl: nat, lab: seq<byte>, u: Option<seq<byte>>, v: Option<seq<byte>>, bits: nat)
    requires IsHash(hmac, bl) && |lab| > 0 && lab[|lab| - 1] != 0
    ensures IsBlockKdf(KdfA(hmac, bl, lab, u, v, bits)) && IsBlockKdf(KdfA(hmac, bl, lab + [0], u, v, bits))
    ensures Stream(KdfA(hmac, bl, lab, u, v, bits), 0) == Stream(KdfA(hmac, bl, lab + [0], u, v, bits), 0)
  {
    var f := (i: nat) => KdfAInput(lab, u, v, bits, i);
    var g := (i: nat) => KdfAInput(lab + [0], u, v, bits, i);
    CountingKdfOk(hmac, bits, bl, f);
    CountingKdfOk(hmac, bits, bl, g);
    forall n: nat ensures f(n) == g(n) { SeparatorAppended(lab, Be32(n), OptBytes(u), OptBytes(v), Be32(bits)); }
    forall i: nat ensures AgreeAt(CountingKdf(hmac, bits, bl, f), CountingKdf(hmac, bits, bl, g), i) {
      assert f(i + 1) == g(i + 1);
    }
    SameStream(CountingKdf(hmac, bits, bl, f), CountingKdf(hmac, bits, bl, g), 0);
  }
  lemma SeparatorAppended(lab: seq<byte>, a: seq<byte>, u: seq<byte>, v: seq<byte>, b: seq<byte>)
    ensures a + lab + [0] + u + v + b == a + (lab + [0]) + [] + u + v + b
  {
    assert a + lab + [0] == a + (lab + [0]) + [];
  }

  // ---- the size of a key ----

  lemma KeepTwice(b: byte, bits: nat)
    ensures KeepBits(KeepBits(b, bits), bits) == KeepBits(b, bits)
  {
  }

  /** A key of a number of bits that is not a multiple of eight, read as a big-endian
      number, has no more bits than that. */
  lemma KeyBits(h: Hash, bits: nat, bl: nat, input: nat -> seq<byte>)
    requires IsHash(h, bl) && bits > 0
    ensures IsBlockKdf(CountingKdf(h, bits, bl, input))
    ensures BE(Stream(CountingKdf(h, bits, bl, input), 0)) < Pow(2, bits)
  {
    CountingKdfOk(h, bits, bl, input);
    var x := Stream(CountingKdf(h, bits, bl, input), 0);
    StreamIs(h, bits, bl, input, 0, 0, 0);
    KeepTwice(h(input(1))[0], bits);
    BEFirst(x, bits);
  }

  lemma TopByte(b: byte, bits: nat, top: nat)
    requires 0 < top <= 8 && top % 8 == bits % 8 && b == KeepBits(b, bits)
    ensures b + 1 <= Pow(2, top)
  {
    PowTop(top);
  }

  lemma TopBits(bits: nat)
    requires bits > 0
    ensures var top := bits - 8 * (DivCeil8(bits) - 1); 0 < top <= 8 && top % 8 == bits % 8
  {
  }

  lemma PowSplit(n: nat, top: nat)
    ensures Pow(2, top) * Cap(n) == Pow(2, top + 8 * n)
  {
    BytesAndBits(n);
    PowAdd(2, top, 8 * n);
  }

  /** A byte string whose first byte has no bits above `bits`, all in all. */
  lemma BEFirst(x: seq<byte>, bits: nat)
    requires bits > 0 && |x| == DivCeil8(bits) && x[0] == KeepBits(x[0], bits)
    ensures BE(x) < Pow(2, bits)
  {
    var n := |x| - 1;
    var top := bits - 8 * n;
    TopBits(bits);
    FirstByte(x);
    TopByte(x[0], bits, top);
    PowSplit(n, top);
    TopBound(x[0], BE(x[1..]), Cap(n), Pow(2, top));
  }
  lemma TopBound(b: nat, r: nat, c: nat, p: nat)
    requires r < c && b + 1 <= p
    ensures b * c + r < p * c
  {
    assert (b + 1) * c <= p * c;
  }
  lemma PowTop(t: nat)
    requires 0 < t <= 8
    ensures Pow(2, t) == [1, 2, 4, 8, 16, 32, 64, 128, 256][t]
  {
    if t > 1 { PowTop(t - 1); }
  }

  // ---- the objects ----

  /** `TcgTpm2KdfA` and `TcgTpm2KdfE`, which differ in what they hash. The hash
      instance is cloned for every block but the last, which uses it up. */
  class TcgTpm2Kdf {
    const h: Hash
    const input: nat -> seq<byte>
    const bits: nat
    const blockLen: nat
    var instance: bool
    var nBlocks: nat

    ghost predicate Valid() reads this {
      IsHash(h, blockLen) && (instance <==> RemainingLen(bits, blockLen, nBlocks) > 0)
    }
    ghost function Spec(): BlockKdf<nat> reads this { CountingKdf(h, bits, blockLen, input) }

    constructor (hash: Hash, digestLen: nat, totalBits: nat, blockInput: nat -> seq<byte>)
      requires IsHash(hash, digestLen)
      ensures Valid() && nBlocks == 0 && Spec() == CountingKdf(hash, totalBits, digestLen, blockInput)
    {
      h, blockLen, bits, input := hash, digestLen, totalBits, blockInput;
      instance, nBlocks := totalBits != 0, 0;
    }

    /** `generate_block`. */
    method GenerateBlock() returns (r: Result<(seq<byte>, nat)>)
      requires Valid()
      modifies this
      ensures Valid()
      ensures match Spec().generate(old(nBlocks))
              case Ok((b, n, next)) => r == Ok((b, n)) && nBlocks == next
              case Err(e) => r == Err(e) && nBlocks == old(nBlocks)
    {
      RemainingNext(bits, blockLen, nBlocks);
      var remaining := RemainingLen(bits, blockLen, nBlocks);
      if !instance { return Err(Internal); }
      if remaining <= blockLen { instance := false; }
      var first := nBlocks == 0;
      nBlocks := nBlocks + 1;
      var output := h(input(nBlocks));
      if first { output := output[0 := KeepBits(output[0], bits)]; }
      var n := Min(blockLen, remaining);
      output := output[..n] + Zeros(blockLen - n);
      r := Ok((output, n));
    }
  }

  // ---- MGF1 ----

  const U32: nat := 0x1_0000_0000

  function Mgf1(h: Hash, bl: nat, seed: seq<byte>, last: nat): BlockKdf<nat> {
    BlockKdf(bl, (c: nat) => if c <= last then (last + 1 - c) * bl else 0,
      (c: nat) => MaskBlock(h, bl, seed, last, c))
  }
  function MaskBlock(h: Hash, bl: nat, seed: seq<byte>, last: nat, c: nat): Result<(seq<byte>, nat, nat)> {
    if c <= last then Ok((h(seed + Be32(c)), bl, c + 1)) else Err(Internal)
  }

  lemma Mgf1Ok(h: Hash, bl: nat, seed: seq<byte>, last: nat)
    requires IsHash(h, bl)
    ensures IsBlockKdf(Mgf1(h, bl, seed, last)) && CountsUp(Mgf1(h, bl, seed, last))
  {
    var kdf := Mgf1(h, bl, seed, last);
    forall c: nat ensures BlockOk(kdf, c) {
      if c <= last {
        MulDistributes(bl, last - c, 1);
        assert |h(seed + Be32(c))| == bl;
      }
    }
  }

  /** The mask, byte by byte (section B.2.1 of RFC 8017): the digests of the seed followed
      by the counter in four bytes, from zero on. */
  lemma MaskIs(h: Hash, bl: nat, seed: seq<byte>, last: nat, q: nat, o: nat, j: nat, w: seq<byte>)
    requires IsHash(h, bl) && q <= last && o < bl && j == q * bl + o
    requires |w| == |seed| + 4 && w[..|seed|] == seed && BE(w[|seed|..]) == q
    ensures IsBlockKdf(Mgf1(h, bl, seed, last))
    ensures var x := Stream(Mgf1(h, bl, seed, last), 0);
            |x| == (last + 1) * bl && j < |x| && |h(w)| == bl && x[j] == h(w)[o]
  {
    Mgf1Ok(h, bl, seed, last);
    var kdf := Mgf1(h, bl, seed, last);
    assert kdf.remaining(0) == (last + 1) * bl;
    TopBound(q, o, bl, last + 1);
    OnlyBytes(q, w[|seed|..]);
    assert w == seed + Be32(q);
    assert |h(seed + Be32(q))| == bl;
    StreamOfBlocks(kdf, 0, q, o, j);
  }

  /** `RFC8017Mgf1`, with a counter of 32 bits. */
  class Rfc8017Mgf1 {
    const h: Hash
    const blockLen: nat
    const seed: seq<byte>
    const last: nat
    var instance: bool
    var counter: nat

    ghost predicate Valid() reads this {
      IsHash(h, blockLen) && last < U32 && counter < U32 && counter <= last + 1 && (instance <==> counter <= last)
    }

    constructor (hash: Hash, digestLen: nat, seedBytes: seq<byte>, counterLast: nat)
      requires IsHash(hash, digestLen) && counterLast < U32
      ensures Valid() && counter == 0 && h == hash && blockLen == digestLen && seed == seedBytes && last == counterLast
    {
      h, blockLen, seed, last := hash, digestLen, seedBytes, counterLast;
      instance, counter := true, 0;
    }

    /** `max_remaining_len`. */
    function MaxRemainingLen(): nat reads this {
      if counter <= last + 1 then
        ProductIsNat(last + 1 - counter, blockLen);
        (last + 1 - counter) * blockLen
      else 0
    }

    /** `generate_block`. It behaves like the specification, except that the counter
        wraps after block 2^32 - 1: then the object is used up and still promises the
        whole length. */
    method GenerateBlock() returns (r: Result<(seq<byte>, nat)>)
      requires Valid()
      modifies this
      ensures match Mgf1(h, blockLen, seed, last).generate(old(counter))
              case Ok((b, n, next)) => r == Ok((b, n)) && counter == next % U32
              case Err(e) => r == Err(e) && counter == old(counter)
      ensures Valid() <==> !(old(instance) && old(counter) == U32 - 1)
      ensures old(instance) && old(counter) == U32 - 1 ==> !instance && MaxRemainingLen() == (last + 1) * blockLen
    {
      if !instance { return Err(Internal); }
      if counter == last { instance := false; }
      var input := Be32(counter);
      counter := (counter + 1) % U32;
      r := Ok((h(seed + input), blockLen));
    }

    /** One more block of the mask. */
    method NextOfMask(mask: seq<byte>, ghost kdf: BlockKdf<nat>, ghost all: seq<byte>) returns (mask': seq<byte>)
      requires Valid() && instance && IsBlockKdf(kdf) && kdf == Mgf1(h, blockLen, seed, last)
      requires Completes(kdf, counter, mask, all)
      modifies this
      ensures Completes(kdf, old(counter) + 1, mask', all)
      ensures counter == (old(counter) + 1) % U32 && (old(counter) < last ==> Valid()) && (instance <==> old(counter) < last)
    {
      CompletesOn(h, blockLen, seed, last, counter, mask, all);
      var r := GenerateBlock();
      mask' := mask + r.value.0;
    }

    /** Generate all blocks of a new object: they are the mask, and afterwards nothing is
        promised any more exactly if the counter did not wrap. */
    method UseUp() returns (mask: seq<byte>)
      requires Valid() && counter == 0
      modifies this
      ensures IsBlockKdf(Mgf1(h, blockLen, seed, last)) && mask == Stream(Mgf1(h, blockLen, seed, last), 0)
      ensures !instance && (MaxRemainingLen() == 0 <==> last != U32 - 1)
    {
      Mgf1Ok(h, blockLen, seed, last);
      ghost var kdf := Mgf1(h, blockLen, seed, last);
      mask := UseUpAll(kdf, Stream(kdf, 0));
    }

    method UseUpAll(ghost kdf: BlockKdf<nat>, ghost all: seq<byte>) returns (mask: seq<byte>)
      requires Valid() && counter == 0 && IsBlockKdf(kdf) && kdf == Mgf1(h, blockLen, seed, last)
      requires Completes(kdf, 0, [], all)
      modifies this
      ensures mask == all && !instance && (MaxRemainingLen() == 0 <==> last != U32 - 1)
    {
      mask := [];
      for i := 0 to last
        invariant Valid() && counter == i && Completes(kdf, i, mask, all)
      {
        mask := NextOfMask(mask, kdf, all);
      }
      mask := NextOfMask(mask, kdf, all);
      CompleteMask(h, blockLen, seed, last, mask, all);
      PromisedAfter(last, counter, blockLen);
    }
  }

  lemma PromisedAfter(last: nat, counter: nat, bl: nat)
    requires last < U32 && counter == (last + 1) % U32 && bl > 0
    ensures counter <= last + 1 && ((last + 1 - counter) * bl == 0 <==> last != U32 - 1)
  {
    if last == U32 - 1 {
      NotZero(last + 1, bl);
    } else {
      assert counter == last + 1;
    }
  }

  /** What is there so far and the rest of the stream make up the whole. */
  ghost predicate Completes(kdf: BlockKdf<nat>, c: nat, mask: seq<byte>, all: seq<byte>)
    requires IsBlockKdf(kdf)
  {
    forall k: nat {:trigger Stream(kdf, k)} :: k == c ==> mask + Stream(kdf, k) == all
  }

  lemma CompletesOn(h: Hash, bl: nat, seed: seq<byte>, last: nat, c: nat, mask: seq<byte>, all: seq<byte>)
    requires IsHash(h, bl) && IsBlockKdf(Mgf1(h, bl, seed, last)) && c <= last
    requires Completes(Mgf1(h, bl, seed, last), c, mask, all)
    ensures Completes(Mgf1(h, bl, seed, last), c + 1, mask + h(seed + Be32(c)), all)
  {
    var kdf := Mgf1(h, bl, seed, last);
    MaskUnfold(h, bl, seed, last, c);
    ConcatAssoc(mask, h(seed + Be32(c)), Stream(kdf, c + 1));
  }

  lemma CompleteMask(h: Hash, bl: nat, seed: seq<byte>, last: nat, mask: seq<byte>, all: seq<byte>)
    requires IsHash(h, bl) && IsBlockKdf(Mgf1(h, bl, seed, last)) && Completes(Mgf1(h, bl, seed, last), last + 1, mask, all)
    ensures mask == all
  {
    var kdf := Mgf1(h, bl, seed, last);
    assert kdf.remaining(last + 1) == 0 && Stream(kdf, last + 1) == [];
  }

  lemma NotZero(a: nat, b: nat) requires a > 0 && b > 0 ensures a * b > 0 {}

  lemma MaskUnfold(h: Hash, bl: nat, seed: seq<byte>, last: nat, c: nat)
    requires IsHash(h, bl) && IsBlockKdf(Mgf1(h, bl, seed, last)) && c <= last
    ensures Stream(Mgf1(h, bl, seed, last), c) == h(seed + Be32(c)) + Stream(Mgf1(h, bl, seed, last), c + 1)
  {
    var kdf := Mgf1(h, bl, seed, last);
    assert BlockOk(kdf, c) && kdf.generate(c) == MaskBlock(h, bl, seed, last, c);
    NotZero(last + 1 - c, bl);
    assert h(seed + Be32(c))[..bl] == h(seed + Be32(c));
  }

  /** For a total length: the counter wraps exactly above 2^32 - 1 blocks. */
  lemma WrapsAbove(total: nat, bl: nat)
    requires bl > 0 && CounterLast(total, bl).Ok?
    ensures CounterLast(total, bl).value == U32 - 1 <==> total > (U32 - 1) * bl
  {
    var last := CounterLast(total, bl).value;
    if last < U32 - 1 { TopProduct(U32 - 1, last + 1, bl); }
  }

  /** `RFC8017Mgf1::new`: the last counter value for a total length. */
  function CounterLast(total: nat, bl: nat): (r: Result<nat>)
    requires bl > 0
    ensures r.Ok? ==> r.value < U32 && total <= (r.value + 1) * bl
    ensures r.Ok? && total > 0 ==> r.value * bl < total
    ensures r.Err? ==> r.error == RequestTooBig && total > U32 * bl
  {
    var last := (if total > 0 then total - 1 else 0) / bl;
    LastCovers(if total > 0 then total - 1 else 0, bl);
    if last < U32 then Ok(last) else Err(RequestTooBig)
  }
  lemma LastCovers(n: nat, bl: nat)
    requires bl > 0
    ensures n / bl * bl <= n < (n / bl + 1) * bl
    ensures n / bl >= U32 ==> n >= U32 * bl
  {
    MulDistributes(bl, n / bl, 1);
    if n / bl >= U32 { TopProduct(n / bl, U32, bl); }
  }
  lemma TopProduct(a: nat, b: nat, c: nat)
    requires a >= b
    ensures a * c >= b * c
  {
  }
}
