/** What the check sequence detects, proved on the bits of whole messages. */
module CrcDetection {
  import opened Crc
  import opened Division
  import opened CrcDivision

  /** The bits of a message in the order the check sequence consumes them. */
  function MessageBits(data: seq<byte>): (s: seq<bool>)
    ensures |s| == 8 * |data|
  {
    if data == [] then [] else MessageBits(data[..|data| - 1]) + ByteBits(data[|data| - 1], 8)
  }

  /** The table-driven check sequence of a message is the remainder of dividing its bits. */
  lemma {:induction false} CrcIsDivision(fcs: bv16, data: seq<byte>)
    ensures WordBits(CrcFrom(fcs, data), 16) == Feed(WordBits(fcs, 16), MessageBits(data))
  {
    hide WordBits, ByteBits, Update, Feed;
    if data == [] {
      FeedNothing(WordBits(fcs, 16));
    } else {
      var n := |data| - 1;
      CrcIsDivision(fcs, data[..n]);
      UpdateIsDivision(CrcFrom(fcs, data[..n]), data[n]);
      FeedConcat(WordBits(fcs, 16), MessageBits(data[..n]), ByteBits(data[n], 8));
    }
  }

  lemma FeedNothing(r: Reg)
    ensures Feed(r, []) == r
  {
  }

  lemma NoTop4(w: bv16)
    requires WordBits(w, 4) == Zeros(4)
    ensures w & 0xF000 == 0
  {
    WordBitsUnfold(w, 4);
    WordBitsUnfold(w << 1, 3);
    WordBitsUnfold((w << 1) << 1, 2);
    WordBitsUnfold(((w << 1) << 1) << 1, 1);
    assert forall i :: 0 <= i < 4 ==> !WordBits(w, 4)[i];
    assert !WordBits(w, 4)[0] && !WordBits(w, 4)[1] && !WordBits(w, 4)[2] && !WordBits(w, 4)[3];
  }

  lemma NoTop4Of(w: bv16, n: nat)
    requires WordBits(w, 4 + n) == Zeros(4 + n)
    ensures w & 0xF000 == 0 && WordBits(w << 4, n) == Zeros(n)
  {
    hide WordBits;
    WordBitsSplit(w, 4, n);
    Shl4(w);
    assert WordBits(w, 4) == Zeros(4 + n)[..4] == Zeros(4);
    assert WordBits(w << 4, n) == Zeros(4 + n)[4..] == Zeros(n);
    NoTop4(w);
  }

  lemma NoBits(w: bv16)
    requires WordBits(w, 16) == Zeros(16)
    ensures w == 0
  {
    hide WordBits;
    NoTop4Of(w, 12);
    NoTop4Of(w << 4, 8);
    NoTop4Of((w << 4) << 4, 4);
    NoTop4Of(((w << 4) << 4) << 4, 0);
  }

  lemma MixZero(a: bv16, b: bv16)
    requires Mix(a, b) == 0
    ensures a == b
  {
  }

  lemma WordBitsInjective(a: bv16, b: bv16)
    requires WordBits(a, 16) == WordBits(b, 16)
    ensures a == b
  {
    hide WordBits, Mix;
    MixBits(a, b, 16);
    var r := WordBits(a, 16);
    assert Plus(r, r) == Zeros(16);
    NoBits(Mix(a, b));
    MixZero(a, b);
  }

  /** The check sequence as two bytes, high byte first. */
  function BigEndian(w: bv16): (s: seq<byte>)
    ensures |s| == 2
  {
    [((w >> 8) & 0xFF) as byte, (w & 0xFF) as byte]
  }

  lemma {:induction false} MessageBitsConcat(a: seq<byte>, b: seq<byte>)
    ensures MessageBits(a + b) == MessageBits(a) + MessageBits(b)
  {
    hide ByteBits;
    if b == [] {
      assert a + b == a;
    } else {
      var n := |b| - 1;
      MessageBitsConcat(a, b[..n]);
      assert (a + b)[..|a + b| - 1] == a + b[..n];
    }
  }

  /** Appending a message's own check sequence leaves the register at zero. */
  lemma OwnSequenceGivesZero(w: bv16)
    ensures CrcFrom(w, BigEndian(w)) == 0
  {
    var b := BigEndian(w);
    assert b[..1] == [b[0]] && [b[0]][..0] == [];
    assert CrcFrom(w, [b[0]]) == Update(w, b[0]);
    assert TableEntry(0) == 0;
    assert Update(w, b[0]) == w << 8;
    assert Update(w << 8, b[1]) == 0;
  }

  /** Messages of equal length that differ only inside sixteen consecutive bits have different
      check sequences, whatever follows the difference. */
  lemma {:induction false} BurstChangesCrc(fcs: bv16, x: seq<byte>, y: seq<byte>, i: nat)
    requires |x| == |y| && MessageBits(x) != MessageBits(y)
    requires forall j :: 0 <= j < 8 * |x| && !(i <= j < i + 16) ==> MessageBits(x)[j] == MessageBits(y)[j]
    ensures CrcFrom(fcs, x) != CrcFrom(fcs, y)
  {
    hide WordBits, Feed, MessageBits, CrcFrom;
    var xs, ys, r := MessageBits(x), MessageBits(y), WordBits(fcs, 16);
    var n := |xs|;
    var lo := if i <= n then i else n;
    var hi := if i + 16 <= n then i + 16 else n;
    assert xs == xs[..lo] + xs[lo..hi] + xs[hi..] && ys == ys[..lo] + ys[lo..hi] + ys[hi..];
    assert xs[..lo] == ys[..lo] && xs[hi..] == ys[hi..];
    CrcIsDivision(fcs, x);
    CrcIsDivision(fcs, y);
    FeedConcat(r, xs[..lo] + xs[lo..hi], xs[hi..]);
    FeedConcat(r, xs[..lo], xs[lo..hi]);
    FeedConcat(r, ys[..lo] + ys[lo..hi], ys[hi..]);
    FeedConcat(r, ys[..lo], ys[lo..hi]);
    if CrcFrom(fcs, x) == CrcFrom(fcs, y) {
      var q := Feed(r, xs[..lo]);
      FeedInjective(Feed(q, xs[lo..hi]), Feed(q, ys[lo..hi]), xs[hi..]);
      ShortStringsDiffer(q, xs[lo..hi], ys[lo..hi]);
      assert false;
    }
  }

  lemma {:induction false} OddPlus(a: seq<bool>, b: seq<bool>)
    requires |a| == |b|
    ensures Odd(Plus(a, b)) == (Odd(a) != Odd(b))
  {
    if a != [] {
      assert Plus(a, b)[1..] == Plus(a[1..], b[1..]);
      OddPlus(a[1..], b[1..]);
    }
  }

  /** Flipping an odd number of bits anywhere in a message changes its check sequence. */
  lemma {:induction false} OddErrorsChangeCrc(fcs: bv16, x: seq<byte>, y: seq<byte>)
    requires |x| == |y| && Odd(Plus(MessageBits(x), MessageBits(y)))
    ensures CrcFrom(fcs, x) != CrcFrom(fcs, y)
  {
    hide WordBits, Feed, MessageBits, CrcFrom, Odd;
    CrcIsDivision(fcs, x);
    CrcIsDivision(fcs, y);
    FeedParity(WordBits(fcs, 16), MessageBits(x));
    FeedParity(WordBits(fcs, 16), MessageBits(y));
    OddPlus(MessageBits(x), MessageBits(y));
  }

  lemma ByteBitsInjective(a: byte, b: byte)
    requires ByteBits(a, 8) == ByteBits(b, 8)
    ensures a == b
  {
    hide WordBits, ByteBits;
    HighWordBits(a);
    HighWordBits(b);
    WordBitsInjective(High(a), High(b));
  }

  lemma {:induction false} MessageBitsInjective(a: seq<byte>, b: seq<byte>)
    requires |a| == |b| && MessageBits(a) == MessageBits(b)
    ensures a == b
  {
    hide ByteBits;
    if a != [] {
      var n := |a| - 1;
      assert MessageBits(a)[..8 * n] == MessageBits(a[..n]) && MessageBits(a)[8 * n..] == ByteBits(a[n], 8);
      assert MessageBits(b)[..8 * n] == MessageBits(b[..n]) && MessageBits(b)[8 * n..] == ByteBits(b[n], 8);
      MessageBitsInjective(a[..n], b[..n]);
      ByteBitsInjective(a[n], b[n]);
      assert a == a[..n] + [a[n]] && b == b[..n] + [b[n]];
    }
  }

  /** Any change to two adjacent bytes changes the check sequence. */
  lemma TwoBytesChangeCrc(fcs: bv16, before: seq<byte>, m: seq<byte>, m': seq<byte>, after: seq<byte>)
    requires |m| == |m'| <= 2 && m != m'
    ensures CrcFrom(fcs, before + m + after) != CrcFrom(fcs, before + m' + after)
  {
    hide MessageBits, CrcFrom;
    MessageBitsConcat(before + m, after);
    MessageBitsConcat(before, m);
    MessageBitsConcat(before + m', after);
    MessageBitsConcat(before, m');
    var x, y := before + m + after, before + m' + after;
    assert x[|before|..|before| + |m|] == m && y[|before|..|before| + |m|] == m';
    if MessageBits(x) == MessageBits(y) {
      MessageBitsInjective(x, y);
      assert false;
    }
    BurstChangesCrc(fcs, x, y, 8 * |before|);
  }

  /** A two-byte tail brings the register to zero exactly when it is the check sequence. */
  lemma ZeroOnlyForOwnSequence(w: bv16, tail: seq<byte>)
    requires |tail| == 2
    ensures CrcFrom(w, tail) == 0 <==> tail == BigEndian(w)
  {
    hide *;
    OwnSequenceGivesZero(w);
    assert [] + tail + [] == tail && [] + BigEndian(w) + [] == BigEndian(w);
    if tail != BigEndian(w) {
      TwoBytesChangeCrc(w, [], tail, BigEndian(w), []);
    }
  }
}
