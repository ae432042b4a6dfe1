/** The "expand" bit permutation of Hacker's Delight, 2nd ed., section 7-5
    (utils-common/src/bitmanip.rs), for every width 2^k.

    A machine word is the set of the positions of its set bits, counted from the
    least significant one. The bitwise `&` and `|` are set intersection and union. */
module BitExpand {

  type Word = set<int>

  function Pow2(i: nat): (r: nat) ensures r > 0 { if i == 0 then 1 else 2 * Pow2(i - 1) }

  ghost predicate Fits(x: Word, w: nat) { forall b :: b in x ==> 0 <= b < w }

  // ---- word operations at width w ----

  function Not(x: Word, w: nat): Word { set b | 0 <= b < w && b !in x }
  function Xor(x: Word, y: Word): Word { (x - y) + (y - x) }
  function Shl(x: Word, n: nat, w: nat): Word { set b | n <= b < w && Below(x, b, n) }
  function Shr(x: Word, n: nat, w: nat): Word { set b | 0 <= b < w - n && Above(x, b, n) }
  predicate Below(x: Word, b: int, n: nat) { b - n in x }
  predicate Above(x: Word, b: int, n: nat) { b + n in x }

  // ---- specification ----

  /** The number of set bits among the lowest `n`. */
  function Ones(x: Word, n: nat): (r: nat)
    ensures r <= n
  {
    if n == 0 then 0 else Ones(x, n - 1) + if n - 1 in x then 1 else 0
  }

  /** The number of clear bits among the lowest `n`. */
  function Zeros(x: Word, n: nat): nat { n - Ones(x, n) }

  /** The j-th set mask position from the right receives bit j of the value,
      every other position is clear. */
  ghost function ExpandedFromRight(x: Word, m: Word, w: nat): Word {
    set b | 0 <= b < w && b in m && Ones(m, b) in x
  }

  /** The j-th set mask position from the left receives the j-th bit from the
      left, every other position is clear. */
  ghost function ExpandedFromLeft(x: Word, m: Word, w: nat): Word {
    set b | 0 <= b < w && b in m && w - 1 - (Ones(m, w) - Ones(m, b + 1)) in x
  }

  lemma {:induction false} OnesMonotone(x: Word, i: nat, n: nat)
    requires i <= n
    ensures Ones(x, i) <= Ones(x, n) <= Ones(x, i) + (n - i)
  {
    if i < n { OnesMonotone(x, i, n - 1); }
  }

  /** The bits of `y` at the set positions of `m` below `n`, from the right. */
  ghost function Gathered(y: Word, m: Word, n: nat): seq<bool> {
    if n == 0 then [] else Gathered(y, m, n - 1) + if n - 1 in m then [n - 1 in y] else []
  }

  /** Expanding loses none of the lowest bits: gathering under the same mask gives
      back as many of them as the mask has set bits. */
  lemma {:induction false} GatherExpanded(x: Word, m: Word, w: nat, n: nat)
    requires n <= w
    ensures Gathered(ExpandedFromRight(x, m, w), m, n) == seq(Ones(m, n), j => j in x)
  {
    if n > 0 { GatherExpanded(x, m, w, n - 1); }
  }

  // ---- binary digits ----

  ghost predicate Odd(n: int) { n % 2 == 1 }

  /** A number without its low `i` binary digits, and those digits alone. */
  ghost function High(z: nat, i: nat): nat { if i == 0 then z else High(z / 2, i - 1) }
  ghost function Low(z: nat, i: nat): (r: nat)
    ensures r <= z
  {
    if i == 0 then 0 else z % 2 + 2 * Low(z / 2, i - 1)
  }

  lemma {:induction false} HighStep(z: nat, i: nat)
    ensures High(z, i + 1) == High(z, i) / 2
  {
    if i > 0 { HighStep(z / 2, i - 1); }
  }

  lemma {:induction false} LowStep(z: nat, i: nat)
    ensures Low(z, i + 1) == Low(z, i) + if Odd(High(z, i)) then Pow2(i) else 0
  {
    if i > 0 { LowStep(z / 2, i - 1); }
  }

  lemma {:induction false} LowIsAll(z: nat, i: nat)
    requires z < Pow2(i)
    ensures Low(z, i) == z
  {
    if i > 0 { LowIsAll(z / 2, i - 1); }
  }

  /** Taking away no more than the low digits leaves the high ones. */
  lemma {:induction false} SameHigh(z: nat, y: nat, i: nat)
    requires z - Low(z, i) <= y <= z
    ensures High(y, i) == High(z, i)
  {
    if i > 0 { SameHigh(z / 2, y / 2, i - 1); }
  }

  // ---- what the words hold in every round ----

  /** The parity of the lowest `n` bits. */
  ghost predicate Parity(x: Word, n: nat) { n > 0 && Parity(x, n - 1) != (n - 1 in x) }

  lemma {:induction false} ParityOfOnes(x: Word, n: nat)
    ensures Parity(x, n) <==> Odd(Ones(x, n))
  {
    if n > 0 { ParityOfOnes(x, n - 1); }
  }

  /** After `j` doubling rounds, bit `b` of `mp` is the parity of the 2^j bits of
      `mk` ending at `b`. */
  ghost predicate SpreadOk(mp: Word, mk: Word, w: nat, j: nat) {
    forall b :: 0 <= b < w ==> SpreadBit(mp, mk, j, b)
  }
  ghost predicate SpreadBit(mp: Word, mk: Word, j: nat, b: nat) {
    b in mp <==> Parity(mk, b + 1) != (b + 1 >= Pow2(j) && Parity(mk, b + 1 - Pow2(j)))
  }

  lemma SpreadFirst(mk: Word, w: nat)
    ensures SpreadOk(mk, mk, w, 0)
  {
    forall b | 0 <= b < w ensures SpreadBit(mk, mk, 0, b) { assert Parity(mk, b + 1) == (Parity(mk, b) != (b in mk)); }
  }

  lemma SpreadStep(mp: Word, mk: Word, w: nat, j: nat)
    requires SpreadOk(mp, mk, w, j)
    ensures SpreadOk(Xor(mp, Shl(mp, Pow2(j), w)), mk, w, j + 1)
  {
    var mp', i := Xor(mp, Shl(mp, Pow2(j), w)), j + 1;
    forall b | 0 <= b < w ensures SpreadBit(mp', mk, i, b) {
      assert SpreadBit(mp, mk, j, b);
      if b >= Pow2(j) { assert SpreadBit(mp, mk, j, b - Pow2(j)); }
    }
  }

  /** `mp` marks the positions below and at which `mk` has an odd number of bits. */
  ghost predicate MpOk(mp: Word, mk: Word, w: nat) {
    forall b :: 0 <= b < w ==> MpBit(mp, mk, b)
  }
  ghost predicate MpBit(mp: Word, mk: Word, b: nat) { b in mp <==> Odd(Ones(mk, b + 1)) }

  lemma SpreadLast(mp: Word, mk: Word, k: nat)
    requires SpreadOk(mp, mk, Pow2(k), k)
    ensures MpOk(mp, mk, Pow2(k))
  {
    forall b | 0 <= b < Pow2(k) ensures MpBit(mp, mk, b) {
      assert SpreadBit(mp, mk, k, b);
      ParityOfOnes(mk, b + 1);
    }
  }

  /** In round `i`, `mk` counts the zeros of the mask without their low `i`
      binary digits. */
  ghost predicate MkOk(mk: Word, m: Word, w: nat, i: nat) {
    forall n :: 0 <= n < w ==> MkCount(mk, m, i, n)
  }
  ghost predicate MkCount(mk: Word, m: Word, i: nat, n: nat) { Ones(mk, n + 1) == High(Zeros(m, n), i) }

  lemma {:induction false} FirstMkCounts(m: Word, w: nat, n: nat)
    requires n < w
    ensures Ones(Shl(Not(m, w), 1, w), n + 1) == Zeros(m, n)
  {
    if n > 0 { FirstMkCounts(m, w, n - 1); }
  }

  lemma MkFirst(m: Word, w: nat)
    ensures MkOk(Shl(Not(m, w), 1, w), m, w, 0)
  {
    forall n | 0 <= n < w ensures MkCount(Shl(Not(m, w), 1, w), m, 0, n) { FirstMkCounts(m, w, n); }
  }

  /** Dropping the bits of odd rank halves every count. */
  lemma {:induction false} HalvedCount(mk: Word, mp: Word, w: nat, n: nat)
    requires n <= w && MpOk(mp, mk, w)
    ensures Ones(mk * Not(mp, w), n) == Ones(mk, n) / 2
  {
    if n > 0 {
      HalvedCount(mk, mp, w, n - 1);
      assert MpBit(mp, mk, n - 1);
    }
  }

  lemma MkStep(mk: Word, mp: Word, m: Word, w: nat, i: nat)
    requires MkOk(mk, m, w, i) && MpOk(mp, mk, w)
    ensures MkOk(mk * Not(mp, w), m, w, i + 1)
  {
    var mk', i' := mk * Not(mp, w), i + 1;
    forall n | 0 <= n < w ensures MkCount(mk', m, i', n) {
      assert MkCount(mk, m, i, n);
      HalvedCount(mk, mp, w, n + 1);
      HighStep(Zeros(m, n), i);
    }
  }

  /** Where the mask bit that started out at `b` is at the start of round `i`:
      moved right by the low `i` binary digits of the zeros below it. */
  ghost function PosAt(m: Word, i: nat, b: nat): (p: nat)
    ensures p <= b
  {
    b - Low(Zeros(m, b), i)
  }

  /** Binary digit `i` of the zeros below `b`. */
  ghost predicate Digit(m: Word, i: nat, b: nat) { Odd(High(Zeros(m, b), i)) }

  lemma PosStep(m: Word, i: nat, b: nat)
    ensures PosAt(m, i + 1, b) == PosAt(m, i, b) - if Digit(m, i, b) then Pow2(i) else 0
  {
    LowStep(Zeros(m, b), i);
  }

  /** Round `i` moves the mask bit from `b` exactly if digit `i` of the zeros
      below it is one: seen from the moved position, the zero count still has
      the same high digits. */
  lemma MoveIsDigit(mk: Word, mp: Word, m: Word, w: nat, i: nat, b: nat)
    requires b < w && MkOk(mk, m, w, i) && MpOk(mp, mk, w)
    ensures PosAt(m, i, b) in mp <==> Digit(m, i, b)
  {
    var p := PosAt(m, i, b);
    OnesMonotone(m, p, b);
    SameHigh(Zeros(m, b), Zeros(m, p), i);
    assert MkCount(mk, m, i, p) && MpBit(mp, mk, p);
  }

  /** In round `i`, every mask bit is where its zeros have moved it so far. */
  ghost predicate MaskOk(mask: Word, m: Word, w: nat, i: nat) {
    forall b {:trigger MaskBit(mask, m, i, b)} :: 0 <= b < w && b in m ==> MaskBit(mask, m, i, b)
  }
  ghost predicate MaskBit(mask: Word, m: Word, i: nat, b: nat) { PosAt(m, i, b) in mask }

  /** `(mask ^ mv) | (mv >> d)` and `(mask ^ mv) | (mv << d)`. */
  function MovedDown(mask: Word, mv: Word, d: nat, w: nat): Word { Xor(mask, mv) + Shr(mv, d, w) }
  function MovedUp(mask: Word, mv: Word, d: nat, w: nat): Word { Xor(mask, mv) + Shl(mv, d, w) }

  /** Round `i` moves exactly the mask bits whose digit `i` is one. */
  ghost predicate MvOk(mv: Word, m: Word, w: nat, i: nat) {
    forall b {:trigger MvBit(mv, m, i, b)} :: 0 <= b < w && b in m ==> MvBit(mv, m, i, b)
  }
  ghost predicate MvBit(mv: Word, m: Word, i: nat, b: nat) { PosAt(m, i, b) in mv <==> Digit(m, i, b) }

  lemma MvStep(mask: Word, mk: Word, mp: Word, m: Word, w: nat, i: nat)
    requires MaskOk(mask, m, w, i) && MkOk(mk, m, w, i) && MpOk(mp, mk, w)
    ensures MvOk(mp * mask, m, w, i)
  {
    var mv := mp * mask;
    forall b | 0 <= b < w && b in m ensures MvBit(mv, m, i, b) {
      assert MaskBit(mask, m, i, b);
      MoveIsDigit(mk, mp, m, w, i, b);
    }
  }

  lemma MaskStep(mask: Word, mv: Word, m: Word, w: nat, i: nat)
    requires MaskOk(mask, m, w, i) && MvOk(mv, m, w, i)
    ensures MaskOk(MovedDown(mask, mv, Pow2(i), w), m, w, i + 1)
  {
    var mask', i' := MovedDown(mask, mv, Pow2(i), w), i + 1;
    forall b | 0 <= b < w && b in m ensures MaskBit(mask', m, i', b) {
      assert MaskBit(mask, m, i, b) && MvBit(mv, m, i, b);
      PosStep(m, i, b);
    }
  }

  /** All that is known of the words at the start of round `i`, with `a` holding
      the moves of the rounds before. */
  ghost predicate RoundOk(mask: Word, mk: Word, a: seq<Word>, m: Word, w: nat, i: nat) {
    MaskOk(mask, m, w, i) && MkOk(mk, m, w, i) && MovesOk(a, m, w, i)
  }
  ghost predicate MovesOk(a: seq<Word>, m: Word, w: nat, i: nat) {
    i <= |a| && forall r :: 0 <= r < i ==> MvOk(a[r], m, w, r)
  }

  lemma RoundFirst(a: seq<Word>, m: Word, w: nat)
    ensures RoundOk(m, Shl(Not(m, w), 1, w), a, m, w, 0)
  {
    MkFirst(m, w);
    forall b | 0 <= b < w && b in m ensures MaskBit(m, m, 0, b) { assert PosAt(m, 0, b) == b; }
  }

  lemma RoundStep(mask: Word, mk: Word, mp: Word, a: seq<Word>, m: Word, w: nat, i: nat)
    requires RoundOk(mask, mk, a, m, w, i) && MpOk(mp, mk, w) && i < |a|
    ensures RoundOk(MovedDown(mask, mp * mask, Pow2(i), w), mk * Not(mp, w), a[i := mp * mask], m, w, i + 1)
  {
    MvStep(mask, mk, mp, m, w, i);
    MaskStep(mask, mp * mask, m, w, i);
    MkStep(mk, mp, m, w, i);
    var a' := a[i := mp * mask];
    forall r | 0 <= r < i + 1 ensures MvOk(a'[r], m, w, r) { assert r < i ==> MvOk(a[r], m, w, r); }
  }

  // ---- running the moves backwards ----

  /** `x`, having come down to round `i`, holds at the position of every mask bit
      in that round the input bit of the rank of the mask bit. */
  ghost predicate Carries(x: Word, value: Word, m: Word, w: nat, i: nat) {
    forall b {:trigger CarriesBit(x, value, m, i, b)} :: 0 <= b < w && b in m ==> CarriesBit(x, value, m, i, b)
  }
  ghost predicate CarriesBit(x: Word, value: Word, m: Word, i: nat, b: nat) {
    PosAt(m, i, b) in x <==> Ones(m, b) in value
  }

  lemma CarriesFirst(value: Word, m: Word, k: nat)
    ensures Carries(value, value, m, Pow2(k), k)
  {
    forall b | 0 <= b < Pow2(k) ensures CarriesBit(value, value, m, k, b) { LowIsAll(Zeros(m, b), k); }
  }

  /** `(x & !mv) | (t & mv)`. */
  function Select(mv: Word, x: Word, t: Word, w: nat): Word { x * Not(mv, w) + t * mv }

  /** Undoing the move of round `i` carries the bits up to where they were. */
  lemma CarriesStep(x: Word, mv: Word, value: Word, m: Word, w: nat, i: nat)
    requires Carries(x, value, m, w, i + 1) && MvOk(mv, m, w, i)
    ensures Carries(Select(mv, x, Shl(x, Pow2(i), w), w), value, m, w, i)
  {
    var x' := Select(mv, x, Shl(x, Pow2(i), w), w);
    forall b | 0 <= b < w && b in m ensures CarriesBit(x', value, m, i, b) {
      PosStep(m, i, b);
      assert CarriesBit(x, value, m, i + 1, b) && MvBit(mv, m, i, b);
    }
  }

  /** Once all moves are undone, masking gives the expanded value. */
  lemma CarriesLast(x: Word, value: Word, m: Word, w: nat)
    requires Fits(m, w) && Carries(x, value, m, w, 0)
    ensures x * m == ExpandedFromRight(value, m, w)
  {
    forall b | b in m ensures b in x <==> Ones(m, b) in value {
      assert CarriesBit(x, value, m, 0, b) && PosAt(m, 0, b) == b;
    }
  }

  // ---- the two functions ----

  /** `expand_from_right` on words of 2^k bits. */
  method ExpandFromRight(value: Word, mask: Word, k: nat) returns (x: Word)
    requires Fits(value, Pow2(k)) && Fits(mask, Pow2(k))
    ensures x == ExpandedFromRight(value, mask, Pow2(k))
  {
    var a := MovesRight(mask, k);
    x := value;
    var i := k;
    CarriesFirst(value, mask, k);
    while i > 0
      invariant 0 <= i <= k && Carries(x, value, mask, Pow2(k), i)
    {
      i := i - 1;
      var mv := a[i];
      CarriesStep(x, mv, value, mask, Pow2(k), i);
      var t := Shl(x, Pow2(i), Pow2(k));
      x := Select(mv, x, t, Pow2(k));
    }
    CarriesLast(x, value, mask, Pow2(k));
    x := x * mask;
  }

  /** The first loop of `expand_from_right`: the bits each round moves. */
  method MovesRight(m0: Word, k: nat) returns (a: seq<Word>)
    ensures MovesOk(a, m0, Pow2(k), k)
  {
    a := seq(k, _ => {});
    var w := Pow2(k);
    var mask, mk := m0, Shl(Not(m0, w), 1, w);
    RoundFirst(a, m0, w);
    for i := 0 to k
      invariant |a| == k && RoundOk(mask, mk, a, m0, w, i)
    {
      var mp := SpreadRight(mk, k);
      RoundStep(mask, mk, mp, a, m0, w, i);
      var mv := mp * mask;
      a := a[i := mv];
      mask := MovedDown(mask, mv, Pow2(i), w);
      mk := mk * Not(mp, w);
    }
  }

  /** The innermost loop of `expand_from_right`. */
  method SpreadRight(mk: Word, k: nat) returns (mp: Word)
    ensures MpOk(mp, mk, Pow2(k))
  {
    mp := mk;
    SpreadFirst(mk, Pow2(k));
    for j := 0 to k
      invariant SpreadOk(mp, mk, Pow2(k), j)
    {
      SpreadStep(mp, mk, Pow2(k), j);
      mp := Xor(mp, Shl(mp, Pow2(j), Pow2(k)));
    }
    SpreadLast(mp, mk, k);
  }

  /** `expand_from_left` on words of 2^k bits. */
  method ExpandFromLeft(value: Word, mask: Word, k: nat) returns (x: Word)
    requires Fits(value, Pow2(k)) && Fits(mask, Pow2(k))
    ensures x == ExpandedFromLeft(value, mask, Pow2(k))
  {
    var w := Pow2(k);
    var a := MovesLeft(mask, k);
    x := value;
    var i := k;
    CarriesFirst(Rev(value, w), Rev(mask, w), k);
    while i > 0
      invariant 0 <= i <= k && Carries(Rev(x, w), Rev(value, w), Rev(mask, w), w, i)
    {
      i := i - 1;
      var mv := a[i];
      assert RevAll(a, w)[i] == Rev(mv, w);
      CarriesStep(Rev(x, w), Rev(mv, w), Rev(value, w), Rev(mask, w), w, i);
      var t := Shr(x, Pow2(i), w);
      MirrorSelect(mv, x, Pow2(i), w);
      x := Select(mv, x, t, w);
    }
    CarriesLast(Rev(x, w), Rev(value, w), Rev(mask, w), w);
    MirrorResult(value, mask, x, w);
    x := x * mask;
  }

  /** The first loop of `expand_from_left`, the mirror image of the other one. */
  method MovesLeft(m0: Word, k: nat) returns (a: seq<Word>)
    ensures |a| == k && MirrorMovesOk(a, m0, Pow2(k), k)
  {
    a := seq(k, _ => {});
    var w := Pow2(k);
    var mask, mk := m0, Shr(Not(m0, w), 1, w);
    MirrorFirst(a, m0, w);
    for i := 0 to k
      invariant |a| == k && MirrorRoundOk(mask, mk, a, m0, w, i)
    {
      var mp := SpreadLeft(mk, k);
      MirrorRound(mask, mk, mp, a, m0, w, i);
      var mv := mp * mask;
      a := a[i := mv];
      mask := MovedUp(mask, mv, Pow2(i), w);
      mk := mk * Not(mp, w);
    }
    MirrorLast(mask, mk, a, m0, w, k);
  }

  /** The innermost loop of `expand_from_left`. */
  method SpreadLeft(mk: Word, k: nat) returns (mp: Word)
    ensures MpOk(Rev(mp, Pow2(k)), Rev(mk, Pow2(k)), Pow2(k))
  {
    var w := Pow2(k);
    mp := mk;
    SpreadFirst(Rev(mk, w), w);
    for j := 0 to k
      invariant SpreadOk(Rev(mp, w), Rev(mk, w), w, j)
    {
      MirrorSpread(mp, Pow2(j), w);
      SpreadStep(Rev(mp, w), Rev(mk, w), w, j);
      mp := Xor(mp, Shr(mp, Pow2(j), w));
    }
    SpreadLast(Rev(mp, w), Rev(mk, w), k);
  }

  // ---- mirror images ----

  /** The word read from the other end. */
  ghost function Rev(x: Word, w: nat): Word { set b | 0 <= b < w && Mirrored(x, b, w) }
  ghost predicate Mirrored(x: Word, b: int, w: nat) { w - 1 - b in x }

  ghost function RevAll(a: seq<Word>, w: nat): seq<Word> { seq(|a|, r requires 0 <= r < |a| => Rev(a[r], w)) }

  ghost predicate MirrorRoundOk(mask: Word, mk: Word, a: seq<Word>, m: Word, w: nat, i: nat) {
    RoundOk(Rev(mask, w), Rev(mk, w), RevAll(a, w), Rev(m, w), w, i)
  }
  ghost predicate MirrorMovesOk(a: seq<Word>, m: Word, w: nat, i: nat) { MovesOk(RevAll(a, w), Rev(m, w), w, i) }

  lemma MirrorLast(mask: Word, mk: Word, a: seq<Word>, m: Word, w: nat, i: nat)
    requires MirrorRoundOk(mask, mk, a, m, w, i)
    ensures MirrorMovesOk(a, m, w, i)
  {
  }

  lemma MirrorFirst(a: seq<Word>, m: Word, w: nat)
    ensures MirrorRoundOk(m, Shr(Not(m, w), 1, w), a, m, w, 0)
  {
    assert Rev(Shr(Not(m, w), 1, w), w) == Shl(Not(Rev(m, w), w), 1, w);
    RoundFirst(RevAll(a, w), Rev(m, w), w);
  }

  lemma MirrorRound(mask: Word, mk: Word, mp: Word, a: seq<Word>, m: Word, w: nat, i: nat)
    requires MirrorRoundOk(mask, mk, a, m, w, i) && MpOk(Rev(mp, w), Rev(mk, w), w) && i < |a|
    ensures MirrorRoundOk(MovedUp(mask, mp * mask, Pow2(i), w), mk * Not(mp, w), a[i := mp * mask], m, w, i + 1)
  {
    MirrorAnd(mp, mask, w);
    MirrorMask(mask, mp * mask, Pow2(i), w);
    MirrorAndNot(mk, mp, w);
    assert RevAll(a[i := mp * mask], w) == RevAll(a, w)[i := Rev(mp * mask, w)];
    RoundStep(Rev(mask, w), Rev(mk, w), Rev(mp, w), RevAll(a, w), Rev(m, w), w, i);
  }

  lemma MirrorAnd(x: Word, y: Word, w: nat) ensures Rev(x * y, w) == Rev(x, w) * Rev(y, w) {}

  lemma MirrorAndNot(x: Word, y: Word, w: nat) ensures Rev(x * Not(y, w), w) == Rev(x, w) * Not(Rev(y, w), w) {}

  lemma MirrorSpread(x: Word, n: nat, w: nat)
    ensures Rev(Xor(x, Shr(x, n, w)), w) == Xor(Rev(x, w), Shl(Rev(x, w), n, w))
  {
    forall b | 0 <= b < w
      ensures b in Rev(Xor(x, Shr(x, n, w)), w) <==> b in Xor(Rev(x, w), Shl(Rev(x, w), n, w))
    {
    }
  }

  lemma MirrorMask(m: Word, mv: Word, n: nat, w: nat)
    ensures Rev(MovedUp(m, mv, n, w), w) == MovedDown(Rev(m, w), Rev(mv, w), n, w)
  {
  }

  lemma MirrorSelect(mv: Word, x: Word, n: nat, w: nat)
    ensures Rev(Select(mv, x, Shr(x, n, w), w), w) == Select(Rev(mv, w), Rev(x, w), Shl(Rev(x, w), n, w), w)
  {
  }

  lemma {:induction false} MirrorOnes(m: Word, w: nat, n: nat)
    requires n <= w
    ensures Ones(Rev(m, w), n) == Ones(m, w) - Ones(m, w - n)
  {
    if n > 0 { MirrorOnes(m, w, n - 1); }
  }

  /** Expanding from the left is expanding from the right seen in a mirror. */
  lemma MirrorSpec(x: Word, m: Word, w: nat)
    ensures Rev(ExpandedFromLeft(x, m, w), w) == ExpandedFromRight(Rev(x, w), Rev(m, w), w)
  {
    forall b | 0 <= b < w
      ensures b in Rev(ExpandedFromLeft(x, m, w), w) <==> b in ExpandedFromRight(Rev(x, w), Rev(m, w), w)
    {
      MirrorOnes(m, w, b);
      OnesMonotone(m, w - b, w);
    }
  }

  lemma MirrorResult(value: Word, mask: Word, x: Word, w: nat)
    requires Fits(mask, w)
    requires Rev(x, w) * Rev(mask, w) == ExpandedFromRight(Rev(value, w), Rev(mask, w), w)
    ensures x * mask == ExpandedFromLeft(value, mask, w)
  {
    MirrorAnd(x, mask, w);
    MirrorSpec(value, mask, w);
    forall b | 0 <= b < w ensures b in x * mask <==> b in ExpandedFromLeft(value, mask, w) {
      assert w - 1 - b in Rev(x * mask, w) <==> w - 1 - b in Rev(ExpandedFromLeft(value, mask, w), w);
    }
  }
}
