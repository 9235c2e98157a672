/** The table-driven update is long division of the message bits, eight at a time. */
module CrcDivision {
  import opened Crc
  import opened Division

  /** The n top bits of a word, most significant first. */
  function WordBits(w: bv16, n: nat): (s: seq<bool>)
    ensures |s| == n
    decreases n
  {
    if n == 0 then [] else [w & 0x8000 == 0x8000] + WordBits(w << 1, n - 1)
  }

  /** The n top bits of a byte, most significant first. */
  function ByteBits(b: byte, n: nat): (s: seq<bool>)
    ensures |s| == n
    decreases n
  {
    if n == 0 then [] else [b & 0x80 == 0x80] + ByteBits(b << 1, n - 1)
  }

  lemma WordBitsUnfold(w: bv16, n: nat)
    requires n > 0
    ensures WordBits(w, n) == [w & 0x8000 == 0x8000] + WordBits(w << 1, n - 1)
  {
  }

  lemma WordBitsNone(w: bv16)
    ensures WordBits(w, 0) == []
  {
  }

  lemma TopXor(a: bv16, b: bv16)
    ensures ((a ^ b) & 0x8000 == 0x8000) == ((a & 0x8000 == 0x8000) != (b & 0x8000 == 0x8000))
  {
  }

  lemma ShiftXor(a: bv16, b: bv16)
    ensures (a ^ b) << 1 == (a << 1) ^ (b << 1)
  {
  }

  lemma PlusNone() ensures Plus([], []) == [] {}
  lemma PlusCons(x: seq<bool>, y: seq<bool>, p: bool, q: bool)
    requires |x| == |y|
    ensures [p != q] + Plus(x, y) == Plus([p] + x, [q] + y)
  {
  }

  lemma {:induction false} WordBitsXor(a: bv16, b: bv16, n: nat)
    ensures WordBits(a ^ b, n) == Plus(WordBits(a, n), WordBits(b, n))
    decreases n
  {
    hide *;
    if n > 0 {
      var c := a ^ b;
      WordBitsUnfold(a, n);
      WordBitsUnfold(b, n);
      WordBitsUnfold(c, n);
      TopXor(a, b);
      ShiftXor(a, b);
      WordBitsXor(a << 1, b << 1, n - 1);
      PlusCons(WordBits(a << 1, n - 1), WordBits(b << 1, n - 1), a & 0x8000 == 0x8000, b & 0x8000 == 0x8000);
    } else { WordBitsNone(a); WordBitsNone(b); WordBitsNone(a ^ b); PlusNone(); }
  }

  // Named forms of the word operators, so that proofs about bit strings need not look inside them.
  function Mix(a: bv16, b: bv16): bv16 { a ^ b }

  function Raised(w: bv16): bv16 { w << 8 }

  function High(b: byte): bv16 { (b as bv16) << 8 }

  function Top(w: bv16): bv16 { w & 0xFF00 }

  lemma MixBits(a: bv16, b: bv16, n: nat)
    ensures WordBits(Mix(a, b), n) == Plus(WordBits(a, n), WordBits(b, n))
  {
    WordBitsXor(a, b, n);
  }

  lemma {:induction false} WordBitsSplit(w: bv16, n: nat, m: nat)
    ensures WordBits(w, n + m) == WordBits(w, n) + WordBits(Shl(w, n), m)
    decreases n
  {
    if n > 0 {
      WordBitsSplit(w << 1, n - 1, m);
    }
  }

  function Shl(w: bv16, n: nat): bv16
    decreases n
  {
    if n == 0 then w else Shl(w << 1, n - 1)
  }

  lemma {:induction false} ShlSplit(w: bv16, n: nat, m: nat)
    ensures Shl(w, n + m) == Shl(Shl(w, n), m)
    decreases n
  {
    if n > 0 {
      ShlSplit(w << 1, n - 1, m);
    }
  }

  lemma Shl4(w: bv16)
    ensures Shl(w, 4) == w << 4
  {
    ShlSplit(w, 2, 2);
  }

  lemma Shl8(w: bv16)
    ensures Shl(w, 8) == w << 8
  {
    Shl4(w);
    Shl4(w << 4);
    ShlSplit(w, 4, 4);
  }

  lemma {:induction false} WordBitsZero(n: nat)
    ensures WordBits(0, n) == Zeros(n)
  {
    if n > 0 {
      WordBitsZero(n - 1);
    }
  }

  /** Shifting a word left by eight moves its low byte to the top and pads with zeros. */
  lemma ShiftedWord(w: bv16)
    ensures WordBits(w << 8, 16) == WordBits(w, 16)[8..] + Zeros(8)
  {
    hide WordBits, Shl;
    Shl8(w);
    Shl8(w << 8);
    WordBitsSplit(w, 8, 8);
    WordBitsSplit(w << 8, 8, 8);
    assert (w << 8) << 8 == 0;
    WordBitsZero(8);
  }

  lemma {:induction false} ByteInWord(b: byte, w: bv16, n: nat)
    requires w == (b as bv16) << 8
    ensures WordBits(w, n) == ByteBits(b, n)
    decreases n
  {
    if n > 0 {
      assert w << 1 == ((b << 1) as bv16) << 8;
      ByteInWord(b << 1, w << 1, n - 1);
    }
  }

  /** One step of division on a word register, with no message bit mixed in. */
  function ShiftStep(r: bv16): bv16 {
    if r & 0x8000 != 0 then (r << 1) ^ 0x1021 else r << 1
  }

  function ShiftStep8(r: bv16): bv16 {
    ShiftStep(ShiftStep(ShiftStep(ShiftStep(ShiftStep(ShiftStep(ShiftStep(ShiftStep(r))))))))
  }

  /** A word with one more mixed in for each of the four low bits of an index that is set. */
  function Sum(i: byte, e: bv16, a: bv16, b: bv16, c: bv16, d: bv16): bv16 {
    var e1 := if i & 1 == 0 then e else Mix(e, a);
    var e2 := if i & 2 == 0 then e1 else Mix(e1, b);
    var e4 := if i & 4 == 0 then e2 else Mix(e2, c);
    if i & 8 == 0 then e4 else Mix(e4, d)
  }

  lemma XorAssociates(a: bv16, b: bv16, c: bv16)
    ensures (a ^ b) ^ c == a ^ (b ^ c)
  {
  }

  lemma XorCommutes(a: bv16, b: bv16)
    ensures a ^ b == b ^ a
  {
  }

  lemma MixAssociates(a: bv16, b: bv16, c: bv16)
    ensures Mix(Mix(a, b), c) == Mix(a, Mix(b, c))
  {
    XorAssociates(a, b, c);
  }

  lemma MixCommutes(a: bv16, b: bv16)
    ensures Mix(a, b) == Mix(b, a)
  {
    XorCommutes(a, b);
  }

  lemma MixZeroLeft(a: bv16)
    ensures Mix(0, a) == a
  {
  }

  /** A line of the table whose entries are such sums. */
  lemma PickOfSums(i: byte, e: bv16, a: bv16, b: bv16, c: bv16, d: bv16)
    ensures Pick(i, e, Mix(e, a), Mix(e, b), Mix(Mix(e, a), b), Mix(e, c), Mix(Mix(e, a), c), Mix(Mix(e, b), c),
                 Mix(Mix(Mix(e, a), b), c), Mix(e, d), Mix(Mix(e, a), d), Mix(Mix(e, b), d),
                 Mix(Mix(Mix(e, a), b), d), Mix(Mix(e, c), d), Mix(Mix(Mix(e, a), c), d),
                 Mix(Mix(Mix(e, b), c), d), Mix(Mix(Mix(Mix(e, a), b), c), d))
         == Sum(i, e, a, b, c, d)
  {
    hide Mix;
  }

  lemma SumStart(i: byte, e: bv16, a: bv16, b: bv16, c: bv16, d: bv16)
    ensures Sum(i, e, a, b, c, d) == Mix(Sum(i, 0, a, b, c, d), e)
  {
    hide Mix;
    var s1 := if i & 1 == 0 then 0 else Mix(0, a);
    var s2 := if i & 2 == 0 then s1 else Mix(s1, b);
    var s4 := if i & 4 == 0 then s2 else Mix(s2, c);
    MixIn(i & 1 == 0, 0, a, e);
    MixIn(i & 2 == 0, s1, b, e);
    MixIn(i & 4 == 0, s2, c, e);
    MixIn(i & 8 == 0, s4, d, e);
    MixZeroLeft(e);
  }

  lemma MixIn(skip: bool, s: bv16, a: bv16, e: bv16)
    ensures (if skip then Mix(s, e) else Mix(Mix(s, e), a)) == Mix(if skip then s else Mix(s, a), e)
  {
    hide Mix;
    MixAssociates(s, e, a);
    MixAssociates(s, a, e);
    MixCommutes(e, a);
  }

  /** One line of the table, told by its first entry. */
  function Line(i: byte, e: bv16): bv16 {
    Sum(i, e, 0x1021, 0x2042, 0x4084, 0x8108)
  }

  lemma EntryIsSum(i: byte)
    ensures TableEntry(i) == Sum(i >> 4, Line(i, 0), 0x1231, 0x2462, 0x48c4, 0x9188)
  {
    hide Pick, Sum;
    var low := Line(i, 0);
    PickOfSums(i, 0x0000, 0x1021, 0x2042, 0x4084, 0x8108);
    PickOfSums(i, 0x1231, 0x1021, 0x2042, 0x4084, 0x8108);
    PickOfSums(i, 0x2462, 0x1021, 0x2042, 0x4084, 0x8108);
    PickOfSums(i, 0x3653, 0x1021, 0x2042, 0x4084, 0x8108);
    PickOfSums(i, 0x48c4, 0x1021, 0x2042, 0x4084, 0x8108);
    PickOfSums(i, 0x5af5, 0x1021, 0x2042, 0x4084, 0x8108);
    PickOfSums(i, 0x6ca6, 0x1021, 0x2042, 0x4084, 0x8108);
    PickOfSums(i, 0x7e97, 0x1021, 0x2042, 0x4084, 0x8108);
    PickOfSums(i, 0x9188, 0x1021, 0x2042, 0x4084, 0x8108);
    PickOfSums(i, 0x83b9, 0x1021, 0x2042, 0x4084, 0x8108);
    PickOfSums(i, 0xb5ea, 0x1021, 0x2042, 0x4084, 0x8108);
    PickOfSums(i, 0xa7db, 0x1021, 0x2042, 0x4084, 0x8108);
    PickOfSums(i, 0xd94c, 0x1021, 0x2042, 0x4084, 0x8108);
    PickOfSums(i, 0xcb7d, 0x1021, 0x2042, 0x4084, 0x8108);
    PickOfSums(i, 0xfd2e, 0x1021, 0x2042, 0x4084, 0x8108);
    PickOfSums(i, 0xef1f, 0x1021, 0x2042, 0x4084, 0x8108);
    SumStart(i, 0x1231, 0x1021, 0x2042, 0x4084, 0x8108);
    SumStart(i, 0x2462, 0x1021, 0x2042, 0x4084, 0x8108);
    SumStart(i, 0x3653, 0x1021, 0x2042, 0x4084, 0x8108);
    SumStart(i, 0x48c4, 0x1021, 0x2042, 0x4084, 0x8108);
    SumStart(i, 0x5af5, 0x1021, 0x2042, 0x4084, 0x8108);
    SumStart(i, 0x6ca6, 0x1021, 0x2042, 0x4084, 0x8108);
    SumStart(i, 0x7e97, 0x1021, 0x2042, 0x4084, 0x8108);
    SumStart(i, 0x9188, 0x1021, 0x2042, 0x4084, 0x8108);
    SumStart(i, 0x83b9, 0x1021, 0x2042, 0x4084, 0x8108);
    SumStart(i, 0xb5ea, 0x1021, 0x2042, 0x4084, 0x8108);
    SumStart(i, 0xa7db, 0x1021, 0x2042, 0x4084, 0x8108);
    SumStart(i, 0xd94c, 0x1021, 0x2042, 0x4084, 0x8108);
    SumStart(i, 0xcb7d, 0x1021, 0x2042, 0x4084, 0x8108);
    SumStart(i, 0xfd2e, 0x1021, 0x2042, 0x4084, 0x8108);
    SumStart(i, 0xef1f, 0x1021, 0x2042, 0x4084, 0x8108);
    MixAssociates(low, 0x1231, 0x2462);
    MixAssociates(low, 0x1231, 0x48c4);
    MixAssociates(low, 0x2462, 0x48c4);
    MixAssociates(low, 0x3653, 0x48c4);
    MixAssociates(low, 0x1231, 0x9188);
    MixAssociates(low, 0x2462, 0x9188);
    MixAssociates(low, 0x3653, 0x9188);
    MixAssociates(low, 0x48c4, 0x9188);
    MixAssociates(low, 0x5af5, 0x9188);
    MixAssociates(low, 0x6ca6, 0x9188);
    MixAssociates(low, 0x7e97, 0x9188);
    PickOfSums(i >> 4, low, 0x1231, 0x2462, 0x48c4, 0x9188);
  }

  // A shift step in named parts: what leaves the word, and what stays.
  predicate Carries(w: bv16) { w & 0x8000 != 0 }

  function Twice(w: bv16): bv16 { w << 1 }

  lemma ShiftStepParts(w: bv16)
    ensures ShiftStep(w) == if Carries(w) then Mix(Twice(w), 0x1021) else Twice(w)
  {
  }

  lemma CarriesMix(a: bv16, b: bv16)
    ensures Carries(Mix(a, b)) == (Carries(a) != Carries(b))
  {
    TopXor(a, b);
    assert forall w: bv16 :: Carries(w) == (w & 0x8000 == 0x8000);
  }

  lemma TwiceMix(a: bv16, b: bv16)
    ensures Twice(Mix(a, b)) == Mix(Twice(a), Twice(b))
  {
    ShiftXor(a, b);
  }

  lemma MixSelf(a: bv16)
    ensures Mix(a, a) == 0
  {
  }

  lemma MixCancels(a: bv16, b: bv16, c: bv16)
    ensures Mix(Mix(a, c), Mix(b, c)) == Mix(a, b)
  {
    hide Mix;
    var s := Mix(a, b);
    MixAssociates(Mix(a, c), b, c);
    MixIn(false, a, b, c);
    MixAssociates(s, c, c);
    MixSelf(c);
    MixCommutes(s, 0);
    MixZeroLeft(s);
  }

  lemma ShiftStepMix(a: bv16, b: bv16)
    ensures ShiftStep(Mix(a, b)) == Mix(ShiftStep(a), ShiftStep(b))
  {
    hide *;
    var p := 0x1021;
    ShiftStepParts(a);
    ShiftStepParts(b);
    ShiftStepParts(Mix(a, b));
    CarriesMix(a, b);
    TwiceMix(a, b);
    MixCancels(Twice(a), Twice(b), p);
    MixIn(false, Twice(a), p, Twice(b));
    MixAssociates(Twice(a), Twice(b), p);
  }

  lemma ShiftStep8Mix(a: bv16, b: bv16)
    ensures ShiftStep8(Mix(a, b)) == Mix(ShiftStep8(a), ShiftStep8(b))
  {
    hide ShiftStep, Mix;
    var a1, b1 := ShiftStep(a), ShiftStep(b);
    var a2, b2 := ShiftStep(a1), ShiftStep(b1);
    var a3, b3 := ShiftStep(a2), ShiftStep(b2);
    var a4, b4 := ShiftStep(a3), ShiftStep(b3);
    var a5, b5 := ShiftStep(a4), ShiftStep(b4);
    var a6, b6 := ShiftStep(a5), ShiftStep(b5);
    var a7, b7 := ShiftStep(a6), ShiftStep(b6);
    ShiftStepMix(a, b);
    ShiftStepMix(a1, b1);
    ShiftStepMix(a2, b2);
    ShiftStepMix(a3, b3);
    ShiftStepMix(a4, b4);
    ShiftStepMix(a5, b5);
    ShiftStepMix(a6, b6);
    ShiftStepMix(a7, b7);
  }

  lemma ShiftStep8Sum(i: byte, e: bv16, a: bv16, b: bv16, c: bv16, d: bv16)
    ensures ShiftStep8(Sum(i, e, a, b, c, d))
         == Sum(i, ShiftStep8(e), ShiftStep8(a), ShiftStep8(b), ShiftStep8(c), ShiftStep8(d))
  {
    hide ShiftStep8, Mix;
    var s1 := if i & 1 == 0 then e else Mix(e, a);
    var s2 := if i & 2 == 0 then s1 else Mix(s1, b);
    var s4 := if i & 4 == 0 then s2 else Mix(s2, c);
    ShiftStep8Mix(e, a);
    ShiftStep8Mix(s1, b);
    ShiftStep8Mix(s2, c);
    ShiftStep8Mix(s4, d);
  }

  lemma HighIsSum(i: byte)
    ensures High(i) == Sum(i >> 4, Sum(i, 0, 0x0100, 0x0200, 0x0400, 0x0800), 0x1000, 0x2000, 0x4000, 0x8000)
  {
  }

  lemma ShiftedBits()
    ensures ShiftStep8(0) == 0
    ensures ShiftStep8(0x0100) == 0x1021 && ShiftStep8(0x0200) == 0x2042
    ensures ShiftStep8(0x0400) == 0x4084 && ShiftStep8(0x0800) == 0x8108
    ensures ShiftStep8(0x1000) == 0x1231 && ShiftStep8(0x2000) == 0x2462
    ensures ShiftStep8(0x4000) == 0x48c4 && ShiftStep8(0x8000) == 0x9188
  {
  }

  /** Every entry of the table is its index divided out over eight steps. */
  lemma EntryIsShifts(i: byte)
    ensures TableEntry(i) == ShiftStep8(High(i))
  {
    hide TableEntry, ShiftStep8, Sum, High;
    EntryIsSum(i);
    HighIsSum(i);
    ShiftStep8Sum(i >> 4, Sum(i, 0, 0x0100, 0x0200, 0x0400, 0x0800), 0x1000, 0x2000, 0x4000, 0x8000);
    ShiftStep8Sum(i, 0, 0x0100, 0x0200, 0x0400, 0x0800);
    ShiftedBits();
  }

  lemma ShiftedOut(w: bv16)
    ensures Shl(w << 1, 15) == 0
  {
    hide Shl;
    ShlOne(w);
    ShlSplit(w, 1, 15);
    ShlSplit(w, 8, 8);
    Shl8(w);
    Shl8(w << 8);
    assert (w << 8) << 8 == 0;
  }

  lemma ShlOne(w: bv16)
    ensures Shl(w, 1) == w << 1
  {
  }

  lemma ShiftedOnce(w: bv16)
    ensures WordBits(w << 1, 16) == WordBits(w, 16)[1..] + Zeros(1)
  {
    hide WordBits, Shl;
    ShiftedOut(w);
    WordBitsUnfold(w, 16);
    WordBitsSplit(w << 1, 15, 1);
    WordBitsZero(1);
  }

  /** The word 0x1021 has its bits at the taps. */
  lemma PolynomialBits()
    ensures forall i :: 0 <= i < 16 ==> WordBits(0x1021, 16)[i] == Tap(i)
  {
    hide WordBits;
    WordBitsUnfold(0x1021, 16); WordBitsUnfold(0x2042, 15); WordBitsUnfold(0x4084, 14); WordBitsUnfold(0x8108, 13);
    WordBitsUnfold(0x0210, 12); WordBitsUnfold(0x0420, 11); WordBitsUnfold(0x0840, 10); WordBitsUnfold(0x1080, 9);
    WordBitsUnfold(0x2100, 8); WordBitsUnfold(0x4200, 7); WordBitsUnfold(0x8400, 6); WordBitsUnfold(0x0800, 5);
    WordBitsUnfold(0x1000, 4); WordBitsUnfold(0x2000, 3); WordBitsUnfold(0x4000, 2); WordBitsUnfold(0x8000, 1);
    WordBitsNone(0);
  }

  lemma StepWithoutCarry(r: Reg)
    requires !r[0]
    ensures Step(r, false) == r[1..] + Zeros(1)
  {
  }

  lemma StepWithCarry(r: Reg, p: Reg)
    requires r[0] && forall i :: 0 <= i < 16 ==> p[i] == Tap(i)
    ensures Step(r, false) == Plus(r[1..] + Zeros(1), p)
  {
  }

  lemma ShiftStepCases(w: bv16)
    ensures WordBits(w, 16)[0] ==> ShiftStep(w) == (w << 1) ^ 0x1021
    ensures !WordBits(w, 16)[0] ==> ShiftStep(w) == w << 1
  {
  }

  lemma ShiftStepBits(w: bv16)
    ensures WordBits(ShiftStep(w), 16) == Step(WordBits(w, 16), false)
  {
    hide WordBits, ShiftStep, Step, Plus, Zeros;
    ShiftStepCases(w);
    ShiftedOnce(w);
    if WordBits(w, 16)[0] {
      WordBitsXor(w << 1, 0x1021, 16);
      PolynomialBits();
      StepWithCarry(WordBits(w, 16), WordBits(0x1021, 16));
    } else {
      StepWithoutCarry(WordBits(w, 16));
    }
  }

  lemma Top4(w: bv16)
    requires w & 0xF000 == 0
    ensures WordBits(w, 4) == Zeros(4)
  {
    WordBitsUnfold(w, 4);
    WordBitsUnfold(w << 1, 3);
    WordBitsUnfold((w << 1) << 1, 2);
    WordBitsUnfold(((w << 1) << 1) << 1, 1);
  }
  lemma Top8(w: bv16)
    requires w & 0xFF00 == 0
    ensures WordBits(w, 8) == Zeros(8)
  {
    hide WordBits;
    Top4(w);
    Top4(w << 4);
    Shl4(w);
    WordBitsSplit(w, 4, 4);
  }

  lemma ShiftStep8Bits(w: bv16)
    ensures WordBits(ShiftStep8(w), 16) == Feed(WordBits(w, 16), Zeros(8))
  {
    hide WordBits, ShiftStep, Step;
    var w1 := ShiftStep(w);
    var w2 := ShiftStep(w1);
    var w3 := ShiftStep(w2);
    var w4 := ShiftStep(w3);
    ShiftStepBits(w);
    ShiftStepBits(w1);
    ShiftStepBits(w2);
    ShiftStepBits(w3);
    FeedZeros4(WordBits(w, 16));
    var w5 := ShiftStep(w4);
    var w6 := ShiftStep(w5);
    var w7 := ShiftStep(w6);
    ShiftStepBits(w4);
    ShiftStepBits(w5);
    ShiftStepBits(w6);
    ShiftStepBits(w7);
    FeedZeros4(WordBits(w4, 16));
    assert Zeros(8) == Zeros(4) + Zeros(4);
    FeedConcat(WordBits(w, 16), Zeros(4), Zeros(4));
  }

  lemma FeedZeros4(r: Reg)
    ensures Feed(r, Zeros(4)) == Step(Step(Step(Step(r, false), false), false), false)
  {
    hide Step;
    assert Zeros(4)[1..] == Zeros(3) && Zeros(3)[1..] == Zeros(2) && Zeros(2)[1..] == Zeros(1) && Zeros(1)[1..] == [];
    assert Feed(r, Zeros(4)) == Feed(Step(r, false), Zeros(3));
    assert Feed(Step(r, false), Zeros(3)) == Feed(Step(Step(r, false), false), Zeros(2));
  }

  lemma HighWordBits(b: byte)
    ensures WordBits(High(b), 16) == ByteBits(b, 8) + Zeros(8)
  {
    hide WordBits, ByteBits;
    var w := High(b);
    WordBitsSplit(w, 8, 8);
    Shl8(w);
    assert w << 8 == 0;
    WordBitsZero(8);
    ByteInWord(b, w, 8);
  }

  lemma EntryBits(i: byte)
    ensures WordBits(TableEntry(i), 16) == Feed(Zeros(16), ByteBits(i, 8))
  {
    hide WordBits, ByteBits, TableEntry, Feed, ShiftStep8;
    var s := WordBits(High(i), 16);
    EntryIsShifts(i);
    ShiftStep8Bits(High(i));
    HighWordBits(i);
    FeedPlus(Zeros(16), s, Zeros(8));
    PlusZeros(s);
    assert Plus(Zeros(8), s[..8]) == ByteBits(i, 8);
    assert s[8..] + Zeros(8) == Zeros(16);
    var f := Feed(Zeros(16), ByteBits(i, 8));
    assert Plus(f, Zeros(16)) == f;
  }

  /** The index into the table: the message byte mixed with the byte leaving the register. */
  function Index(fcs: bv16, v: byte): byte {
    ((fcs >> 8) & 0xFF) as byte ^ v
  }

  lemma IndexWord(fcs: bv16, v: byte)
    ensures High(Index(fcs, v)) == Mix(High(v), Top(fcs))
  {
  }

  lemma HighBits(b: byte)
    ensures WordBits(High(b), 8) == ByteBits(b, 8)
  {
    ByteInWord(b, High(b), 8);
  }

  lemma TopBits(w: bv16)
    ensures WordBits(Top(w), 8) == WordBits(w, 16)[..8]
  {
    hide WordBits;
    assert w == (w & 0xFF00) ^ (w & 0xFF);
    WordBitsXor(w & 0xFF00, w & 0xFF, 8);
    Top8(w & 0xFF);
    WordBitsSplit(w, 8, 8);
    var h := WordBits(w & 0xFF00, 8);
    assert Plus(h, Zeros(8)) == h;
  }

  lemma IndexBits(fcs: bv16, v: byte)
    ensures ByteBits(Index(fcs, v), 8) == Plus(ByteBits(v, 8), WordBits(fcs, 16)[..8])
  {
    hide *;
    IndexWord(fcs, v);
    HighBits(Index(fcs, v));
    HighBits(v);
    MixBits(High(v), Top(fcs), 8);
    TopBits(fcs);
  }

  lemma UpdateParts(fcs: bv16, v: byte)
    ensures Update(fcs, v) == Mix(Raised(fcs), TableEntry(Index(fcs, v)))
  {
    hide TableEntry;
  }

  lemma RaisedBits(w: bv16)
    ensures WordBits(Raised(w), 16) == WordBits(w, 16)[8..] + Zeros(8)
  {
    ShiftedWord(w);
  }

  /** One table step divides the register by eight more message bits. */
  lemma UpdateIsDivision(fcs: bv16, v: byte)
    ensures WordBits(Update(fcs, v), 16) == Feed(WordBits(fcs, 16), ByteBits(v, 8))
  {
    hide *;
    var i := Index(fcs, v);
    var r := WordBits(fcs, 16);
    UpdateParts(fcs, v);
    MixBits(Raised(fcs), TableEntry(i), 16);
    RaisedBits(fcs);
    EntryBits(i);
    IndexBits(fcs, v);
    FeedPlus(Zeros(16), r, ByteBits(v, 8));
    PlusZeros(r);
    PlusSwap(r[8..] + Zeros(8), Feed(Zeros(16), ByteBits(i, 8)));
  }

  lemma PlusZeros(r: seq<bool>)
    ensures Plus(Zeros(|r|), r) == r
  {
  }

  lemma PlusSwap(a: seq<bool>, b: seq<bool>)
    requires |a| == |b|
    ensures Plus(a, b) == Plus(b, a)
  {
  }
}
