/** Byte strings as big-endian numbers. */
module Bytes {
  import opened Arith
  import opened Cmpa

  type byte = b: int | 0 <= b < 256

  function BE(s: seq<byte>): nat {
    if s == [] then 0 else BE(s[..|s| - 1]) * 256 + s[|s| - 1]
  }

  function ToBE(v: nat, len: nat): (s: seq<byte>)
    ensures |s| == len
  {
    if len == 0 then [] else ToBE(v / 256, len - 1) + [v % 256]
  }

  function Zeros(n: nat): (z: seq<byte>)
    ensures |z| == n && forall i :: 0 <= i < n ==> z[i] == 0
  {
    seq(n, _ => 0)
  }

  lemma {:induction false} BEBound(s: seq<byte>)
    ensures BE(s) < Cap(|s|)
  {
    if s != [] { BEBound(s[..|s| - 1]); }
  }

  /** Writing a number that fits and reading it back. */
  lemma {:induction false} BEOfToBE(v: nat, len: nat)
    requires v < Cap(len)
    ensures BE(ToBE(v, len)) == v
  {
    if len > 0 {
      BEOfToBE(v / 256, len - 1);
      assert ToBE(v, len)[..len - 1] == ToBE(v / 256, len - 1);
    }
  }

  lemma PrefixOn(w: seq<byte>, i: nat, j: nat)
    requires i <= j <= |w|
    ensures w[..j] == w[..i] + w[i..j]
  {
  }

  /** The only bytes that stand for a number. */
  lemma OnlyBytes(v: nat, s: seq<byte>)
    requires BE(s) == v
    ensures s == ToBE(v, |s|)
  {
    ToBEOfBE(s);
  }

  /** Reading a number and writing it back. */
  lemma {:induction false} ToBEOfBE(s: seq<byte>)
    ensures ToBE(BE(s), |s|) == s
  {
    if s != [] {
      ToBEOfBE(s[..|s| - 1]);
      assert s == s[..|s| - 1] + [s[|s| - 1]];
    }
  }

  lemma {:induction false} BEConcat(a: seq<byte>, b: seq<byte>)
    ensures BE(a + b) == BE(a) * Cap(|b|) + BE(b)
  {
    if b == [] {
      assert a + b == a;
    } else {
      var i := b[..|b| - 1];
      BEConcat(a, i);
      assert (a + b)[..|a + b| - 1] == a + i;
      assert Cap(|b|) == Cap(|i|) * 256;
      MulAssoc(BE(a), Cap(|i|), 256);
    }
  }

  lemma FirstByte(s: seq<byte>)
    requires s != []
    ensures BE(s) == s[0] * Cap(|s| - 1) + BE(s[1..]) && BE(s[1..]) < Cap(|s| - 1)
  {
    assert s == [s[0]] + s[1..];
    BEConcat([s[0]], s[1..]);
    assert BE([s[0]]) == s[0] by { assert [s[0]][..0] == []; }
    BEBound(s[1..]);
  }
}
