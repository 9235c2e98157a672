/** Two wrong bits: how far apart they must be to go unnoticed. */
module TwoBitErrors {
  import opened Crc
  import opened Division
  import opened CrcDivision
  import opened CrcDetection
  import opened PowersOfX

  /** The remainder a wrong bit adds at once. */
  lemma WrongBit(r: Reg, bit: bool)
    ensures Step(r, !bit) == Plus(Step(r, bit), Power(16))
  {
    hide Power;
    TapsAreSixteen();
  }

  lemma TapsAreSixteen()
    ensures forall i :: 0 <= i < 16 ==> Power(16)[i] == Tap(i)
  {
    hide Power, WordBits, Word;
    SmallWords();
    PowerIsWord(16);
    PolynomialBits();
  }

  lemma StepPlus(r: Reg, d: Reg, bit: bool)
    ensures Step(Plus(r, d), bit) == Plus(Step(r, bit), Times(d))
  {
  }

  /** A difference goes through any message as through zeros. */
  lemma {:induction false} FeedDifference(r: Reg, d: Reg, bits: seq<bool>)
    ensures Feed(Plus(r, d), bits) == Plus(Feed(r, bits), Feed(d, Zeros(|bits|)))
    decreases |bits|
  {
    hide Step, Plus;
    if bits == [] {
      assert Zeros(0) == [];
    } else {
      StepPlus(r, d, bits[0]);
      FeedDifference(Step(r, bits[0]), Times(d), bits[1..]);
      assert Zeros(|bits|)[1..] == Zeros(|bits| - 1) && !Zeros(|bits|)[0];
    }
  }

  lemma PlusIsZero(a: Reg, b: Reg, c: Reg)
    ensures Plus(Plus(a, b), c) == a <==> b == c
  {
    if Plus(Plus(a, b), c) == a {
      forall i | 0 <= i < 16 ensures b[i] == c[i] {
        assert Plus(Plus(a, b), c)[i] == ((a[i] != b[i]) != c[i]);
      }
      assert b == c;
    } else if b == c {
      PlusSwapLast(a, b, c);
    }
  }

  /** One wrong bit, the bits between, another wrong bit: gone exactly when the distance is a multiple
      of the order. */
  lemma TwoWrongBits(r: Reg, a: bool, mid: seq<bool>, b: bool)
    ensures Feed(r, [a] + mid + [b]) == Feed(r, [!a] + mid + [!b]) <==> (|mid| + 1) % ORDER == 0
  {
    hide Feed, Step, Power, Plus;
    var n := |mid|;
    var q := Feed(Step(r, a), mid);
    FeedEnds(r, a, mid, b);
    FeedEnds(r, !a, mid, !b);
    WrongBit(r, a);
    FeedDifference(Step(r, a), Power(16), mid);
    PowerPlus(16, n);
    StepPlus(q, Power(16 + n), !b);
    WrongBit(q, b);
    PowerNext(16 + n);
    PlusSwapLast(Step(q, b), Power(16), Power(16 + n + 1));
    PlusIsZero(Step(q, b), Power(16), Power(16 + n + 1));
    PowersApart(16, n + 1);
    OrderOfX(n + 1);
  }

  lemma FeedEnds(r: Reg, a: bool, mid: seq<bool>, b: bool)
    ensures Feed(r, [a] + mid + [b]) == Step(Feed(Step(r, a), mid), b)
  {
    hide Step;
    FeedConcat(r, [a] + mid, [b]);
    FeedConcat(r, [a], mid);
    FeedBit(r, a);
    FeedBit(Feed(Step(r, a), mid), b);
  }

  lemma FeedBit(r: Reg, a: bool)
    ensures Feed(r, [a]) == Step(r, a)
  {
    hide Step;
    assert [a][1..] == [];
    assert Feed(Step(r, a), []) == Step(r, a);
  }

  /** y is x with exactly the bits at i and j changed. */
  ghost predicate FlippedAt(x: seq<byte>, y: seq<byte>, i: nat, j: nat) {
    && |x| == |y| && i < j < 8 * |x|
    && forall k :: 0 <= k < 8 * |x| ==> (MessageBits(x)[k] != MessageBits(y)[k] <==> k == i || k == j)
  }

  /** Two wrong bits leave the check sequence as it was exactly when they are a multiple of 32767 apart. */
  lemma TwoFlipsChangeCrc(fcs: bv16, x: seq<byte>, y: seq<byte>, i: nat, j: nat)
    requires FlippedAt(x, y, i, j)
    ensures CrcFrom(fcs, x) == CrcFrom(fcs, y) <==> (j - i) % ORDER == 0
  {
    hide *;
    var xs, ys, r := MessageBits(x), MessageBits(y), WordBits(fcs, 16);
    FlippedBits(x, y, i, j);
    var before, mid, rest := xs[..i], xs[i + 1..j], xs[j + 1..];
    var a, b := [xs[i]] + mid + [xs[j]], [!xs[i]] + mid + [!xs[j]];
    var q := Feed(r, before);
    CrcIsDivision(fcs, x);
    CrcIsDivision(fcs, y);
    FeedThree(r, before, a, rest);
    FeedThree(r, before, b, rest);
    TwoWrongBits(q, xs[i], mid, xs[j]);
    if CrcFrom(fcs, x) == CrcFrom(fcs, y) {
      FeedInjective(Feed(q, a), Feed(q, b), rest);
    } else if Feed(q, a) == Feed(q, b) {
      WordBitsInjective(CrcFrom(fcs, x), CrcFrom(fcs, y));
    }
  }

  lemma FlippedBits(x: seq<byte>, y: seq<byte>, i: nat, j: nat)
    requires FlippedAt(x, y, i, j)
    ensures var xs, ys := MessageBits(x), MessageBits(y);
      && i < j < |xs|
      && xs == xs[..i] + ([xs[i]] + xs[i + 1..j] + [xs[j]]) + xs[j + 1..]
      && ys == xs[..i] + ([!xs[i]] + xs[i + 1..j] + [!xs[j]]) + xs[j + 1..]
  {
    hide MessageBits;
    var xs, ys := MessageBits(x), MessageBits(y);
    Rejoined(xs, i, j);
    Rejoined(ys, i, j);
    assert ys[..i] == xs[..i];
    assert ys[i + 1..j] == xs[i + 1..j];
    assert ys[j + 1..] == xs[j + 1..];
  }

  lemma Rejoined(xs: seq<bool>, i: nat, j: nat)
    requires i < j < |xs|
    ensures xs == xs[..i] + ([xs[i]] + xs[i + 1..j] + [xs[j]]) + xs[j + 1..]
  {
  }

  lemma FeedThree(r: Reg, a: seq<bool>, b: seq<bool>, c: seq<bool>)
    ensures Feed(r, a + b + c) == Feed(Feed(Feed(r, a), b), c)
  {
    hide Feed;
    FeedConcat(r, a + b, c);
    FeedConcat(r, a, b);
  }
}
