/** The powers of x modulo the polynomial of the check sequence, and how often they come back to one. */
module PowersOfX {
  import opened Crc
  import opened Division
  import opened CrcDivision
  import opened CrcDetection

  // ---- Powers of x ----

  const UNIT: Reg := Zeros(15) + [true]

  function Times(r: Reg): Reg { Step(r, false) }

  /** The remainder of x^n. */
  function Power(n: nat): Reg { Feed(UNIT, Zeros(n)) }

  lemma PowerNone()
    ensures Power(0) == UNIT
  {
  }

  lemma PowerPlus(a: nat, b: nat)
    ensures Power(a + b) == Feed(Power(a), Zeros(b))
  {
    hide Feed;
    assert Zeros(a + b) == Zeros(a) + Zeros(b);
    FeedConcat(UNIT, Zeros(a), Zeros(b));
  }

  lemma FeedOneZero(r: Reg)
    ensures Feed(r, Zeros(1)) == Times(r)
  {
    hide Step;
    assert Zeros(1)[0] == false && Zeros(1)[1..] == [];
    assert Feed(Times(r), []) == Times(r);
  }

  lemma PowerNext(n: nat)
    ensures Power(n + 1) == Times(Power(n))
  {
    hide Power, Feed, Step;
    PowerPlus(n, 1);
    FeedOneZero(Power(n));
  }

  lemma TimesPlus(a: Reg, b: Reg)
    ensures Times(Plus(a, b)) == Plus(Times(a), Times(b))
  {
  }

  // ---- Squares ----

  /** The sum of the x^2j for the k low bits j of a register. */
  function Spread(r: Reg, k: nat): Reg
    requires k <= 16
  {
    if k == 0 then Zeros(16)
    else if r[16 - k] then Plus(Spread(r, k - 1), Power(2 * (k - 1)))
    else Spread(r, k - 1)
  }

  /** The taps below x^k, spread. */
  function SpreadTaps(k: nat): Reg
    requires k <= 16
  {
    if k == 0 then Zeros(16)
    else if Tap(16 - k) then Plus(SpreadTaps(k - 1), Power(2 * (k - 1)))
    else SpreadTaps(k - 1)
  }

  function TwiceTimes(r: Reg): Reg { Times(Times(r)) }

  lemma TwiceTimesPlus(a: Reg, b: Reg)
    ensures TwiceTimes(Plus(a, b)) == Plus(TwiceTimes(a), TwiceTimes(b))
  {
    hide Times, Plus;
    TimesPlus(a, b);
    TimesPlus(Times(a), Times(b));
  }

  lemma TwiceTimesZero()
    ensures TwiceTimes(Zeros(16)) == Zeros(16)
  {
    assert Times(Zeros(16)) == Zeros(16);
  }

  lemma PowerTwice(n: nat)
    ensures TwiceTimes(Power(n)) == Power(n + 2)
  {
    hide Power, Times;
    PowerNext(n);
    PowerNext(n + 1);
  }

  lemma PlusSwapLast(a: Reg, b: Reg, c: Reg)
    ensures Plus(Plus(a, b), c) == Plus(Plus(a, c), b)
    ensures Plus(Plus(a, b), b) == a
    ensures Plus(a, Zeros(16)) == a
  {
  }

  lemma PlusFour(a: Reg, b: Reg, c: Reg)
    ensures Plus(Plus(a, c), Plus(b, c)) == Plus(a, b)
    ensures Plus(Plus(a, b), c) == Plus(a, Plus(b, c))
  {
  }

  lemma TimesBit(r: Reg, k: nat)
    requires 1 <= k <= 16
    ensures Times(r)[16 - k] == ((k > 1 && r[17 - k]) != (r[0] && Tap(16 - k)))
  {
  }

  lemma SpreadNext(r: Reg, k: nat)
    requires 1 <= k <= 16
    ensures Spread(r, k) == if r[16 - k] then Plus(Spread(r, k - 1), Power(2 * (k - 1))) else Spread(r, k - 1)
    ensures SpreadTaps(k) == if Tap(16 - k) then Plus(SpreadTaps(k - 1), Power(2 * (k - 1))) else SpreadTaps(k - 1)
  {
    hide Power, Plus;
  }

  lemma NothingSpread(r: Reg)
    ensures Spread(r, 0) == Zeros(16) && SpreadTaps(0) == Zeros(16)
  {
  }

  lemma {:induction false} SpreadTimes(r: Reg, k: nat)
    requires 1 <= k <= 16
    ensures Spread(Times(r), k)
         == if r[0] then Plus(TwiceTimes(Spread(r, k - 1)), SpreadTaps(k)) else TwiceTimes(Spread(r, k - 1))
    decreases k
  {
    hide *;
    var p := Power(2 * (k - 1));
    TimesBit(r, k);
    SpreadNext(Times(r), k);
    if k > 1 {
      SpreadTimes(r, k - 1);
      SpreadNext(r, k - 1);
      var t, taps := TwiceTimes(Spread(r, k - 2)), SpreadTaps(k - 1);
      PowerTwice(2 * (k - 2));
      TwiceTimesPlus(Spread(r, k - 2), Power(2 * (k - 2)));
      PlusSwapLast(t, taps, p);
      PlusFour(t, taps, p);
    } else {
      NothingSpread(r);
      NothingSpread(Times(r));
      TwiceTimesZero();
      ZeroPlus(SpreadTaps(1));
    }
  }

  lemma ZeroPlus(a: Reg)
    ensures Plus(Zeros(16), a) == a
  {
  }

  lemma {:induction false} SpreadUnit(k: nat)
    requires 1 <= k <= 16
    ensures Spread(UNIT, k) == Power(0)
  {
    hide Power, Plus;
    PlusSwapLast(Zeros(16), Power(0), Zeros(16));
    PowerNone();
    if k > 1 {
      SpreadUnit(k - 1);
    } else {
      ZeroPlus(UNIT);
    }
  }

  // ---- Powers as words ----

  function Word(n: nat): bv16 {
    if n == 0 then 1 else ShiftStep(Word(n - 1))
  }

  lemma UnitBits()
    ensures WordBits(1, 16) == UNIT
  {
    hide WordBits;
    WordBitsUnfold(0x0001, 16); WordBitsUnfold(0x0002, 15); WordBitsUnfold(0x0004, 14); WordBitsUnfold(0x0008, 13);
    WordBitsUnfold(0x0010, 12); WordBitsUnfold(0x0020, 11); WordBitsUnfold(0x0040, 10); WordBitsUnfold(0x0080, 9);
    WordBitsUnfold(0x0100, 8); WordBitsUnfold(0x0200, 7); WordBitsUnfold(0x0400, 6); WordBitsUnfold(0x0800, 5);
    WordBitsUnfold(0x1000, 4); WordBitsUnfold(0x2000, 3); WordBitsUnfold(0x4000, 2); WordBitsUnfold(0x8000, 1);
    WordBitsNone(0);
  }

  lemma {:induction false} PowerIsWord(n: nat)
    ensures Power(n) == WordBits(Word(n), 16)
  {
    hide Power, WordBits, ShiftStep, Step;
    if n == 0 {
      PowerNone();
      UnitBits();
    } else {
      PowerIsWord(n - 1);
      PowerNext(n - 1);
      ShiftStepBits(Word(n - 1));
    }
  }

  lemma UnitIsOne(n: nat)
    ensures Power(n) == UNIT <==> Word(n) == 1
  {
    hide Power, WordBits, Word;
    PowerIsWord(n);
    UnitBits();
    if Power(n) == UNIT {
      WordBitsInjective(Word(n), 1);
    }
  }

  /** The first 33 powers, every second of them. */
  lemma SmallWords()
    ensures Word(0) == 0x0001
    ensures Word(2) == 0x0004
    ensures Word(4) == 0x0010
    ensures Word(6) == 0x0040
    ensures Word(8) == 0x0100
    ensures Word(10) == 0x0400
    ensures Word(12) == 0x1000
    ensures Word(14) == 0x4000
    ensures Word(16) == 0x1021
    ensures Word(18) == 0x4084
    ensures Word(20) == 0x1231
    ensures Word(22) == 0x48c4
    ensures Word(24) == 0x3331
    ensures Word(26) == 0xccc4
    ensures Word(28) == 0x0373
    ensures Word(30) == 0x0dcc
    ensures Word(32) == 0x3730
  {
    hide Word;
    FirstWord();
    StepWord(0, 0x0001, 0x0002);
    StepWord(1, 0x0002, 0x0004);
    StepWord(2, 0x0004, 0x0008);
    StepWord(3, 0x0008, 0x0010);
    StepWord(4, 0x0010, 0x0020);
    StepWord(5, 0x0020, 0x0040);
    StepWord(6, 0x0040, 0x0080);
    StepWord(7, 0x0080, 0x0100);
    StepWord(8, 0x0100, 0x0200);
    StepWord(9, 0x0200, 0x0400);
    StepWord(10, 0x0400, 0x0800);
    StepWord(11, 0x0800, 0x1000);
    StepWord(12, 0x1000, 0x2000);
    StepWord(13, 0x2000, 0x4000);
    StepWord(14, 0x4000, 0x8000);
    StepWord(15, 0x8000, 0x1021);
    StepWord(16, 0x1021, 0x2042);
    StepWord(17, 0x2042, 0x4084);
    StepWord(18, 0x4084, 0x8108);
    StepWord(19, 0x8108, 0x1231);
    StepWord(20, 0x1231, 0x2462);
    StepWord(21, 0x2462, 0x48c4);
    StepWord(22, 0x48c4, 0x9188);
    StepWord(23, 0x9188, 0x3331);
    StepWord(24, 0x3331, 0x6662);
    StepWord(25, 0x6662, 0xccc4);
    StepWord(26, 0xccc4, 0x89a9);
    StepWord(27, 0x89a9, 0x0373);
    StepWord(28, 0x0373, 0x06e6);
    StepWord(29, 0x06e6, 0x0dcc);
    StepWord(30, 0x0dcc, 0x1b98);
    StepWord(31, 0x1b98, 0x3730);
  }

  lemma StepWord(n: nat, w: bv16, next: bv16)
    requires Word(n) == w && ShiftStep(w) == next
    ensures Word(n + 1) == next
  {
  }

  lemma TapsSpread()
    ensures SpreadTaps(16) == Power(32)
  {
    hide Power, WordBits, Word, Plus;
    PowerIsWord(0);
    PowerIsWord(10);
    PowerIsWord(24);
    PowerIsWord(32);
    SmallWords();
    TapsListed();
    ZeroPlus(Power(0));
    WordBitsXor(0x0001, 0x0400, 16);
    WordBitsXor(0x0401, 0x3331, 16);
  }

  lemma TapsListed()
    ensures SpreadTaps(16) == Plus(Plus(Plus(Zeros(16), Power(0)), Power(10)), Power(24))
  {
    hide Power, Plus;
    assert SpreadTaps(5) == Plus(Zeros(16), Power(0)) by {
      assert SpreadTaps(1) == Plus(Zeros(16), Power(0));
      assert SpreadTaps(3) == SpreadTaps(1);
    }
    assert SpreadTaps(6) == Plus(SpreadTaps(5), Power(10));
    assert SpreadTaps(8) == SpreadTaps(6);
    assert SpreadTaps(10) == SpreadTaps(8);
    assert SpreadTaps(12) == SpreadTaps(10);
    assert SpreadTaps(13) == Plus(SpreadTaps(12), Power(24));
    assert SpreadTaps(15) == SpreadTaps(13);
    assert SpreadTaps(16) == SpreadTaps(15);
  }

  /** Spreading a power squares it. */
  lemma {:induction false} SpreadIsSquare(n: nat)
    ensures Spread(Power(n), 16) == Power(2 * n)
  {
    hide Power, Plus, TwiceTimes, Times, SpreadTaps;
    if n == 0 {
      PowerNone();
      SpreadUnit(16);
    } else {
      var r := Power(n - 1);
      SpreadIsSquare(n - 1);
      PowerNext(n - 1);
      SpreadTimes(r, 16);
      TapsSpread();
      PowerTwice(2 * (n - 1));
      PowerTwice(30);
      TwiceTimesPlus(Spread(r, 15), Power(30));
    }
  }

  /** One more column when a word has its top bit set. */
  function Part(w: bv16, column: bv16, rest: bv16): bv16 {
    if Carries(w) then Mix(rest, column) else rest
  }

  // The square of a word: the columns of its bits, in two halves.
  function LowColumns(w: bv16, rest: bv16): bv16 {
    var w1 := Twice(w);
    var w2 := Twice(w1);
    var w3 := Twice(w2);
    var w4 := Twice(w3);
    var w5 := Twice(w4);
    var w6 := Twice(w5);
    var w7 := Twice(w6);
    var s := Part(w4, 0x0040, Part(w5, 0x0010, Part(w6, 0x0004, Part(w7, 0x0001, rest))));
    Part(w, 0x4000, Part(w1, 0x1000, Part(w2, 0x0400, Part(w3, 0x0100, s))))
  }

  function HighColumns(w: bv16, rest: bv16): bv16 {
    var w1 := Twice(w);
    var w2 := Twice(w1);
    var w3 := Twice(w2);
    var w4 := Twice(w3);
    var w5 := Twice(w4);
    var w6 := Twice(w5);
    var w7 := Twice(w6);
    var s := Part(w4, 0x48c4, Part(w5, 0x1231, Part(w6, 0x4084, Part(w7, 0x1021, rest))));
    Part(w, 0x0dcc, Part(w1, 0x0373, Part(w2, 0xccc4, Part(w3, 0x3331, s))))
  }

  /** The square of a word. */
  function SquareWord(w: bv16): bv16 {
    HighColumns(w, LowColumns(w << 8, 0))
  }

  lemma CarriesMeans(w: bv16)
    ensures Carries(w) <==> w & 0x8000 == 0x8000
  {
  }

  lemma FirstBit(w: bv16, n: nat)
    requires n > 0
    ensures WordBits(w, n)[0] == Carries(w)
  {
    CarriesMeans(w);
  }

  lemma TwiceIsShl(w: bv16)
    ensures Shl(w, 1) == Twice(w)
  {
    ShlOne(w);
  }

  /** The bit of a word at a position leads the word shifted that far. */
  lemma BitAt(w: bv16, i: nat, v: bv16)
    requires i < 16 && v == Shl(w, i)
    ensures WordBits(w, 16)[i] == Carries(v) && Twice(v) == Shl(w, i + 1)
  {
    hide WordBits, Shl, Twice, Carries;
    WordBitsSplit(w, i, 16 - i);
    FirstBit(v, 16 - i);
    ShlSplit(w, i, 1);
    TwiceIsShl(v);
  }

  lemma NotShifted(w: bv16)
    ensures Shl(w, 0) == w
  {
  }

  lemma PartStep(r: Reg, k: nat, w: bv16, column: bv16, rest: bv16)
    requires 1 <= k <= 16 && r[16 - k] == Carries(w)
    requires Spread(r, k - 1) == WordBits(rest, 16) && Word(2 * (k - 1)) == column
    ensures Spread(r, k) == WordBits(Part(w, column, rest), 16)
  {
    hide Power, Word, WordBits, Mix, Plus, Carries;
    PowerIsWord(2 * (k - 1));
    MixBits(rest, column, 16);
  }

  lemma LowSpreads(w: bv16, v: bv16, rest: bv16)
    requires v == Shl(w, 8) && Spread(WordBits(w, 16), 0) == WordBits(rest, 16)
    ensures Spread(WordBits(w, 16), 8) == WordBits(LowColumns(v, rest), 16)
  {
    hide WordBits, Word, Part, Spread, Twice, Shl, Carries, Zeros, ShiftStep;
    var r := WordBits(w, 16);
    var v1 := Twice(v);
    var v2 := Twice(v1);
    var v3 := Twice(v2);
    var v4 := Twice(v3);
    var v5 := Twice(v4);
    var v6 := Twice(v5);
    var v7 := Twice(v6);
    BitAt(w, 8, v);
    BitAt(w, 9, v1);
    BitAt(w, 10, v2);
    BitAt(w, 11, v3);
    BitAt(w, 12, v4);
    BitAt(w, 13, v5);
    BitAt(w, 14, v6);
    BitAt(w, 15, v7);
    SmallWords();
    PartStep(r, 1, v7, 0x0001, rest);
    var s1 := Part(v7, 0x0001, rest);
    PartStep(r, 2, v6, 0x0004, s1);
    var s2 := Part(v6, 0x0004, s1);
    PartStep(r, 3, v5, 0x0010, s2);
    var s3 := Part(v5, 0x0010, s2);
    PartStep(r, 4, v4, 0x0040, s3);
    var s4 := Part(v4, 0x0040, s3);
    PartStep(r, 5, v3, 0x0100, s4);
    var s5 := Part(v3, 0x0100, s4);
    PartStep(r, 6, v2, 0x0400, s5);
    var s6 := Part(v2, 0x0400, s5);
    PartStep(r, 7, v1, 0x1000, s6);
    var s7 := Part(v1, 0x1000, s6);
    PartStep(r, 8, v, 0x4000, s7);
  }

  lemma HighSpreads(w: bv16, v: bv16, rest: bv16)
    requires v == Shl(w, 0) && Spread(WordBits(w, 16), 8) == WordBits(rest, 16)
    ensures Spread(WordBits(w, 16), 16) == WordBits(HighColumns(v, rest), 16)
  {
    hide WordBits, Word, Part, Spread, Twice, Shl, Carries, Zeros, ShiftStep;
    var r := WordBits(w, 16);
    var v1 := Twice(v);
    var v2 := Twice(v1);
    var v3 := Twice(v2);
    var v4 := Twice(v3);
    var v5 := Twice(v4);
    var v6 := Twice(v5);
    var v7 := Twice(v6);
    BitAt(w, 0, v);
    BitAt(w, 1, v1);
    BitAt(w, 2, v2);
    BitAt(w, 3, v3);
    BitAt(w, 4, v4);
    BitAt(w, 5, v5);
    BitAt(w, 6, v6);
    BitAt(w, 7, v7);
    SmallWords();
    PartStep(r, 9, v7, 0x1021, rest);
    var s9 := Part(v7, 0x1021, rest);
    PartStep(r, 10, v6, 0x4084, s9);
    var s10 := Part(v6, 0x4084, s9);
    PartStep(r, 11, v5, 0x1231, s10);
    var s11 := Part(v5, 0x1231, s10);
    PartStep(r, 12, v4, 0x48c4, s11);
    var s12 := Part(v4, 0x48c4, s11);
    PartStep(r, 13, v3, 0x3331, s12);
    var s13 := Part(v3, 0x3331, s12);
    PartStep(r, 14, v2, 0xccc4, s13);
    var s14 := Part(v2, 0xccc4, s13);
    PartStep(r, 15, v1, 0x0373, s14);
    var s15 := Part(v1, 0x0373, s14);
    PartStep(r, 16, v, 0x0dcc, s15);
  }

  /** Squaring words is spreading their bits. */
  lemma SquareSpreads(w: bv16)
    ensures Spread(WordBits(w, 16), 16) == WordBits(SquareWord(w), 16)
  {
    hide WordBits, Spread, LowColumns, HighColumns, Shl;
    NothingSpread(WordBits(w, 16));
    WordBitsZero(16);
    Shl8(w);
    NotShifted(w);
    LowSpreads(w, w << 8, 0);
    HighSpreads(w, w, LowColumns(w << 8, 0));
  }

  lemma Doubled(n: nat, w: bv16, square: bv16)
    requires Word(n) == w && SquareWord(w) == square
    ensures Word(2 * n) == square
  {
    hide Word, WordBits, SquareWord, Power, Spread;
    PowerIsWord(n);
    PowerIsWord(2 * n);
    SpreadIsSquare(n);
    SquareSpreads(w);
    WordBitsInjective(Word(2 * n), square);
  }

  lemma Word217()
    ensures Word(217) == 0x48e3
  {
    hide Word;
    FirstWord();
    Doubled(1, 0x0002, 0x0004);
    StepWord(2, 0x0004, 0x0008);
    Doubled(3, 0x0008, 0x0040);
    Doubled(6, 0x0040, 0x1000);
    StepWord(12, 0x1000, 0x2000);
    Doubled(13, 0x2000, 0xccc4);
    StepWord(26, 0xccc4, 0x89a9);
    Doubled(27, 0x89a9, 0x1168);
    Doubled(54, 0x1168, 0x3750);
    Doubled(108, 0x3750, 0xac61);
    StepWord(216, 0xac61, 0x48e3);
  }

  lemma Word1057()
    ensures Word(1057) == 0xf2af
  {
    hide Word;
    FirstWord();
    Doubled(1, 0x0002, 0x0004);
    Doubled(2, 0x0004, 0x0010);
    Doubled(4, 0x0010, 0x0100);
    Doubled(8, 0x0100, 0x1021);
    Doubled(16, 0x1021, 0x3730);
    StepWord(32, 0x3730, 0x6e60);
    Doubled(33, 0x6e60, 0xc1c6);
    Doubled(66, 0xc1c6, 0x4e8a);
    Doubled(132, 0x4e8a, 0x5946);
    Doubled(264, 0x5946, 0x78b3);
    Doubled(528, 0x78b3, 0xf147);
    StepWord(1056, 0xf147, 0xf2af);
  }

  lemma Word4681()
    ensures Word(4681) == 0x2c42
  {
    hide Word;
    FirstWord();
    Doubled(1, 0x0002, 0x0004);
    Doubled(2, 0x0004, 0x0010);
    Doubled(4, 0x0010, 0x0100);
    StepWord(8, 0x0100, 0x0200);
    Doubled(9, 0x0200, 0x4084);
    Doubled(18, 0x4084, 0x4363);
    Doubled(36, 0x4363, 0x47d3);
    StepWord(72, 0x47d3, 0x8fa6);
    Doubled(73, 0x8fa6, 0x4388);
    Doubled(146, 0x4388, 0x1396);
    Doubled(292, 0x1396, 0x2280);
    StepWord(584, 0x2280, 0x4500);
    Doubled(585, 0x4500, 0x0163);
    Doubled(1170, 0x0163, 0x0424);
    Doubled(2340, 0x0424, 0x1621);
    StepWord(4680, 0x1621, 0x2c42);
  }

  lemma Word32768()
    ensures Word(32768) == 0x0002
  {
    hide Word;
    FirstWord();
    Doubled(1, 0x0002, 0x0004);
    Doubled(2, 0x0004, 0x0010);
    Doubled(4, 0x0010, 0x0100);
    Doubled(8, 0x0100, 0x1021);
    Doubled(16, 0x1021, 0x3730);
    Doubled(32, 0x3730, 0xb861);
    Doubled(64, 0xb861, 0xaefc);
    Doubled(128, 0xaefc, 0x8e29);
    Doubled(256, 0x8e29, 0x13fc);
    Doubled(512, 0x13fc, 0x36c4);
    Doubled(1024, 0x36c4, 0xfd50);
    Doubled(2048, 0xfd50, 0xaa9e);
    Doubled(4096, 0xaa9e, 0x881c);
    Doubled(8192, 0x881c, 0x4458);
    Doubled(16384, 0x4458, 0x0002);
  }

  lemma FirstWord()
    ensures Word(0) == 1 && Word(1) == 2
  {
    assert Word(0) == 1;
    ShiftOfOne();
  }

  lemma ShiftOfOne()
    ensures ShiftStep(1) == 2
  {
  }

  // ---- The order of x ----

  lemma {:induction false} PowerMultiple(g: nat, k: nat)
    requires Power(g) == UNIT
    ensures Power(k * g) == UNIT
  {
    hide Power, Feed;
    if k == 0 {
      PowerNone();
      assert 0 * g == 0;
    } else {
      PowerMultiple(g, k - 1);
      assert k * g == (k - 1) * g + g;
      PowerPlus((k - 1) * g, g);
      PowerIsFeed(g);
    }
  }

  lemma PowerIsFeed(n: nat)
    ensures Power(n) == Feed(UNIT, Zeros(n))
  {
  }

  /** Equal powers: x to their distance is one. */
  lemma PowersApart(a: nat, d: nat)
    ensures Power(a + d) == Power(a) <==> Power(d) == UNIT
  {
    hide Power, Feed;
    PowerPlus(d, a);
    PowerIsFeed(a);
    if Power(a + d) == Power(a) {
      FeedInjective(Power(d), UNIT, Zeros(a));
    }
  }

  function Gcd(a: nat, b: nat): (g: nat)
    requires a > 0 && b > 0
    ensures 0 < g <= a && g <= b
    decreases a + b
  {
    if a == b then a else if a > b then Gcd(a - b, b) else Gcd(a, b - a)
  }

  /** Exponents that give one have their greatest common divisor among them, scaled or not. */
  lemma {:induction false} GcdUnit(c: nat, a: nat, b: nat)
    requires a > 0 && b > 0 && Power(c * a) == UNIT && Power(c * b) == UNIT
    ensures Power(c * Gcd(a, b)) == UNIT
    decreases a + b
  {
    hide Power;
    if a > b {
      Distributes(c, a, b);
      Scaled(c, a - b);
      PowersApart(c * b, c * (a - b));
      GcdUnit(c, a - b, b);
    } else if a < b {
      Distributes(c, b, a);
      Scaled(c, b - a);
      PowersApart(c * a, c * (b - a));
      GcdUnit(c, a, b - a);
    }
  }

  lemma Distributes(c: int, a: int, b: int)
    ensures c * (a - b) == c * a - c * b
  {
  }

  lemma Scaled(c: nat, n: nat)
    ensures c * n >= 0
  {
  }

  /** A divisor by way of its cofactor. */
  ghost predicate Divides(g: nat, n: nat) {
    exists k: nat :: g * k == n
  }

  lemma {:induction false} GcdDivides(a: nat, b: nat)
    requires a > 0 && b > 0
    ensures Divides(Gcd(a, b), a) && Divides(Gcd(a, b), b)
    decreases a + b
  {
    var g := Gcd(a, b);
    if a == b {
      assert g * 1 == a;
    } else if a > b {
      GcdDivides(a - b, b);
      DividesSum(g, a - b, b);
    } else {
      GcdDivides(a, b - a);
      DividesSum(g, b - a, a);
    }
  }

  lemma DividesSum(g: nat, a: nat, b: nat)
    requires Divides(g, a) && Divides(g, b)
    ensures Divides(g, a + b)
  {
    var m: nat :| g * m == a;
    var n: nat :| g * n == b;
    assert g * (m + n) == a + b by {
      Distributes(g, m + n, n);
    }
  }

  predicate OrderPrime(p: nat) { p == 7 || p == 31 || p == 151 }

  /** The three primes have no other divisors. */
  lemma PrimeDivisor(p: nat, g: nat)
    requires OrderPrime(p) && 0 < g < p && Divides(g, p)
    ensures g == 1
  {
    var k: nat :| g * k == p;
    if g <= 12 {
      if g > 1 {
        NoSmallDivisor(p, g, k);
      }
    } else if k <= 12 {
      assert k * g == p;
      NoSmallDivisor(p, k, g);
    } else {
      TooLarge(g, k);
      assert false;
    }
  }

  lemma NoSmallDivisor(p: nat, m: nat, k: nat)
    requires OrderPrime(p) && 0 <= m <= 12 && m * k == p
    ensures m == 1 || m == p
  {
    assert m == 0 || m == 1 || m == 2 || m == 3 || m == 4 || m == 5 || m == 6 || m == 7 || m == 8 || m == 9
        || m == 10 || m == 11 || m == 12;
  }

  lemma TooLarge(g: nat, k: nat)
    requires g >= 13 && k >= 13
    ensures g * k > 151
  {
    assert g * k >= 13 * k;
  }

  const ORDER: nat := 32767

  /** When x to the c-th is not one, but to the (c * p)-th is, exponents that give one are multiples of p. */
  lemma MultipleOfPrime(d: nat, p: nat, c: nat)
    requires OrderPrime(p) && Power(c * p) == UNIT && Power(c) != UNIT && Power(d) == UNIT
    ensures d % p == 0
  {
    hide Power, Gcd, Divides;
    var q, r := d / p, d % p;
    if r != 0 {
      PowerMultiple(d, c);
      PowerMultiple(c * p, q);
      Factors(c, d, p, q, r);
      PowersApart(q * (c * p), c * r);
      GcdUnit(c, r, p);
      GcdDivides(r, p);
      PrimeDivisor(p, Gcd(r, p));
      Once(c);
      assert false;
    }
  }

  lemma Once(c: nat)
    ensures c * 1 == c
  {
  }

  lemma Factors(c: nat, d: nat, p: nat, q: nat, r: nat)
    requires d == p * q + r
    ensures c * d == q * (c * p) + c * r && c * r >= 0 && q * (c * p) >= 0
  {
    assert c * (p * q) == q * (c * p);
    Distributes(c, d, r);
    Scaled(c, r);
    Scaled(c, p);
    Scaled(q, c * p);
  }

  lemma OrderReached()
    ensures Power(ORDER) == UNIT
  {
    hide Power, Word;
    Word32768();
    FirstWord();
    PowerIsWord(32768);
    PowerIsWord(1);
    PowersApart(1, ORDER);
  }

  lemma NotYetOne()
    ensures Power(217) != UNIT && Power(1057) != UNIT && Power(4681) != UNIT
  {
    hide Power, Word;
    Word217();
    Word1057();
    Word4681();
    UnitIsOne(217);
    UnitIsOne(1057);
    UnitIsOne(4681);
  }

  lemma ProductOfPrimes(d: nat)
    requires d % 7 == 0 && d % 31 == 0 && d % 151 == 0
    ensures d % ORDER == 0
  {
    var m7, m31, m151 := d / 7, d / 31, d / 151;
    var a := 9 * m31 - 2 * m7;
    var b := 23 * a - 16 * m151;
    Combined(d, m7, m31, m151, a, b);
  }

  lemma Combined(d: int, m7: int, m31: int, m151: int, a: int, b: int)
    requires d == 7 * m7 == 31 * m31 == 151 * m151
    requires a == 9 * m31 - 2 * m7 && b == 23 * a - 16 * m151
    ensures d == ORDER * b && d % ORDER == 0
  {
    assert m7 == 31 * a;
    assert a == 151 * b;
  }

  /** The powers of x come back to one exactly after every 32767 steps. */
  lemma OrderOfX(d: nat)
    ensures Power(d) == UNIT <==> d % ORDER == 0
  {
    hide Power;
    OrderReached();
    if Power(d) == UNIT {
      NotYetOne();
      MultipleOfPrime(d, 7, 4681);
      MultipleOfPrime(d, 31, 1057);
      MultipleOfPrime(d, 151, 217);
      ProductOfPrimes(d);
    } else if d % ORDER == 0 {
      PowerMultiple(ORDER, d / ORDER);
    }
  }
}
