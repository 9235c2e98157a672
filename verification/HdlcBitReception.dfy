/** What the bit receiver passes on, and what it delivers. */
module HdlcBitReception {
  import opened Crc
  import opened Hdlc
  import opened HdlcReception
  import opened HdlcBits

  // ---- Whole bytes ----

  lemma EightShifts(acc: byte, d: byte)
    ensures ShiftIn(ShiftIn(ShiftIn(ShiftIn(ShiftIn(ShiftIn(ShiftIn(ShiftIn(acc, d & 1), (d >> 1) & 1), (d >> 2) & 1),
              (d >> 3) & 1), (d >> 4) & 1), (d >> 5) & 1), (d >> 6) & 1), (d >> 7) & 1) == d
  {
  }

  lemma LoadStep(acc: byte, d: byte, n: nat)
    requires n > 0
    ensures Load(acc, d, n) == Load(ShiftIn(acc, d & 1), d >> 1, n - 1)
  {
  }

  lemma ShiftTwice(d: byte)
    ensures (d >> 1) >> 1 == d >> 2 && (d >> 2) >> 1 == d >> 3 && (d >> 3) >> 1 == d >> 4 && (d >> 4) >> 1 == d >> 5
    ensures (d >> 5) >> 1 == d >> 6 && (d >> 6) >> 1 == d >> 7
  {
  }

  lemma LoadIsByte(acc: byte, d: byte)
    ensures Load(acc, d, 8) == d
  {
    hide *;
    ShiftTwice(d);
    var a1 := ShiftIn(acc, d & 1);
    var a2 := ShiftIn(a1, (d >> 1) & 1);
    var a3 := ShiftIn(a2, (d >> 2) & 1);
    var a4 := ShiftIn(a3, (d >> 3) & 1);
    var a5 := ShiftIn(a4, (d >> 4) & 1);
    var a6 := ShiftIn(a5, (d >> 5) & 1);
    var a7 := ShiftIn(a6, (d >> 6) & 1);
    LoadStep(acc, d, 8);
    LoadStep(a1, d >> 1, 7);
    LoadStep(a2, d >> 2, 6);
    LoadStep(a3, d >> 3, 5);
    LoadStep(a4, d >> 4, 4);
    LoadStep(a5, d >> 5, 3);
    LoadStep(a6, d >> 6, 2);
    LoadStep(a7, d >> 7, 1);
    LoadNone(ShiftIn(a7, (d >> 7) & 1), (d >> 7) >> 1);
    EightShifts(acc, d);
  }

  lemma LoadNone(acc: byte, d: byte)
    ensures Load(acc, d, 0) == acc
  {
  }

  /** A receiver in step with the sender passes on exactly the bytes that were stuffed. */
  lemma {:induction false} ReadStuffedAll(s: BitRx, bytes: seq<byte>, k: nat)
    requires s.acc == 0 && s.count == 0 && Synced(s.last8, k)
    ensures var t := StuffAll(bytes, k); var r := BitRun(s, t.out);
      r.1 == bytes && r.0.acc == 0 && r.0.count == 0 && Synced(r.0.last8, t.ones)
  {
    hide Synced, BitRun, Stuff, Load;
    if bytes == [] {
      BitRunNone(s);
    } else {
      var n := |bytes| - 1;
      ReadStuffedAll(s, bytes[..n], k);
      var t := StuffAll(bytes[..n], k);
      var m := BitRun(s, t.out).0;
      ReadStuffed(m, bytes[n], 8, t.ones);
      LoadIsByte(m.acc, bytes[n]);
      BitRunConcat(s, t.out, Stuff(bytes[n], 8, t.ones).out);
      assert bytes == bytes[..n] + [bytes[n]];
    }
  }

  // ---- Flags ----

  function Ones(j: nat): (s: seq<byte>)
    ensures |s| == j
  {
    seq(j, i => 1)
  }

  lemma FlagBits()
    ensures Plain(FLAG, 8) == [0] + Ones(6) + [0]
  {
    assert Plain(0x7E, 8) == [0, 1, 1, 1, 1, 1, 1, 0];
    assert Ones(6) == [1, 1, 1, 1, 1, 1];
  }

  function ShiftInOnes(last8: byte, j: nat): byte {
    if j == 0 then last8 else ShiftIn(ShiftInOnes(last8, j - 1), 1)
  }

  /** A run of ones is all data; it can complete at most one byte. */
  lemma {:induction false} ReadOnes(s: BitRx, j: nat)
    requires s.count < 8 && j <= 8
    ensures var r := BitRun(s, Ones(j));
      && r.0.last8 == ShiftInOnes(s.last8, j)
      && 8 * |r.1| + r.0.count == s.count + j
      && r.0.count < 8
  {
    hide BitRun, BitStep, ShiftIn;
    if j == 0 {
      BitRunNone(s);
      assert Ones(0) == [];
    } else {
      ReadOnes(s, j - 1);
      var m := BitRun(s, Ones(j - 1)).0;
      assert Ones(j) == Ones(j - 1) + [1];
      BitRunConcat(s, Ones(j - 1), [1]);
      BitRunOne(m, 1);
      ReadOne(m);
    }
  }

  lemma SixOnes(last8: byte)
    ensures ShiftInOnes(last8, 6) == ShiftIn(ShiftIn(ShiftIn(ShiftIn(ShiftIn(ShiftIn(last8, 1), 1), 1), 1), 1), 1)
  {
    hide ShiftIn;
    assert ShiftInOnes(last8, 1) == ShiftIn(last8, 1);
    assert ShiftInOnes(last8, 2) == ShiftIn(ShiftIn(last8, 1), 1);
    assert ShiftInOnes(last8, 4) == ShiftIn(ShiftIn(ShiftInOnes(last8, 2), 1), 1);
  }

  lemma FlagPattern(last8: byte)
    ensures
      ShiftIn(ShiftIn(ShiftIn(ShiftIn(ShiftIn(ShiftIn(ShiftIn(ShiftIn(last8, 0), 1), 1), 1), 1), 1), 1), 0) == FLAG
  {
  }

  lemma FlagSeen(last8: byte)
    ensures ShiftIn(ShiftInOnes(ShiftIn(last8, 0), 6), 0) == FLAG
  {
    hide *;
    SixOnes(ShiftIn(last8, 0));
    FlagPattern(last8);
  }

  lemma BitStepShape(s: BitRx, bit: byte)
    requires s.count < 8
    ensures var r := BitStep(s, bit);
      && r.0.last8 == ShiftIn(s.last8, bit)
      && r.0.count < 8
      && |r.1| <= 1 && (|r.1| == 1 ==> r.0.count == 0)
    ensures ShiftIn(s.last8, bit) == FLAG ==> BitStep(s, bit) == (BitRx(FLAG, 0, 0), [FLAG])
  {
    hide ShiftIn;
  }

  /** Whatever came before, the eight bits of a flag end in a flag; at most one byte comes out before it. */
  lemma ReadFlag(s: BitRx) returns (early: seq<byte>)
    requires s.count < 8
    ensures BitRun(s, Plain(FLAG, 8)) == (BitRx(FLAG, 0, 0), early + [FLAG]) && |early| <= 1
    ensures forall k :: Synced(s.last8, k) ==> |early| == if s.count == 0 then 0 else 1
  {
    hide BitRun, BitStep, Plain, ShiftIn, Synced;
    FlagBits();
    var t := BitStep(s, 0);
    BitStepShape(s, 0);
    BitRunOne(s, 0);
    ReadOnes(t.0, 6);
    var u := BitRun(t.0, Ones(6));
    BitRunConcat(s, [0], Ones(6));
    FlagSeen(s.last8);
    BitStepShape(u.0, 0);
    BitRunOne(u.0, 0);
    BitRunConcat(s, [0] + Ones(6), [0]);
    early := t.1 + u.1;
    forall k | Synced(s.last8, k) ensures |early| == if s.count == 0 then 0 else 1 {
      ReadZero(s, k);
    }
  }

  // ---- Whole frames ----

  /** From any receiver state, the bits of a frame sent with no carried ones pass the frame's bytes on,
      preceded by at most one byte; a receiver in step at a byte boundary passes nothing else on. */
  lemma ReadFrameBits(s: BitRx, payload: seq<byte>, bigEndian: bool) returns (early: seq<byte>)
    requires s.count < 8
    ensures BitRun(s, EncodeBits(payload, bigEndian, 0).out) == (BitRx(FLAG, 0, 0), early + Encode(payload, bigEndian))
    ensures |early| <= 1
    ensures s.count == 0 && (exists k :: Synced(s.last8, k)) ==> early == []
  {
    hide BitRun, Plain, Synced, Body, EscapeAll, StuffAll;
    var w := EscapeAll(Body(payload, bigEndian));
    var t := StuffAll(w, 0);
    early := ReadFlag(s);
    AfterFlag();
    var f := BitRx(FLAG, 0, 0);
    ReadStuffedAll(f, w, 0);
    var none := ReadFlag(BitRun(f, t.out).0);
    BitRunConcat(s, Plain(FLAG, 8), t.out);
    BitRunConcat(s, Plain(FLAG, 8) + t.out, Plain(FLAG, 8));
    assert [FLAG] + w + [FLAG] == Encode(payload, bigEndian);
    assert none == [];
    assert (early + [FLAG]) + w + ([] + [FLAG]) == early + ([FLAG] + w + [FLAG]);
  }

  lemma AfterFlag()
    ensures Synced(FLAG, 0) && Synced(START.last8, 0)
  {
  }

  /** Frames sent in bits, from a run of ones that starts at zero, reach a fresh receiver whole: both
      stuffing layers are undone and the payload is delivered once, with no error. */
  lemma {:induction false} BitRoundTrip(payload: seq<byte>, bigEndian: bool)
    requires |payload| + 2 < MAX_FRAME
    ensures var r := BitRun(START, EncodeBits(payload, bigEndian, 0).out);
      && r.0.acc == 0 && r.0.count == 0
      && Events(r.1, bigEndian) == [Runt, Frame(payload)]
      && Delivered(r.1, bigEndian) == [payload]
      && Segment(r.1) == []
  {
    hide BitRun, Synced, EncodeBits, Encode, Segment, Accepted;
    AfterFlag();
    var early := ReadFrameBits(START, payload, bigEndian);
    var e := Encode(payload, bigEndian);
    assert [] + e == e;
    Resynchronises([], payload, bigEndian);
    NothingHeard();
    NothingBuffered([], bigEndian);
    assert Delivered([], bigEndian) == [];
    assert [] + [payload] == [payload];
  }

  /** From every receiver state, bit and byte, one frame in bits makes its payload the last delivery,
      with at most one other delivery before it. */
  lemma {:induction false} BitResynchronises(s: BitRx, h: seq<byte>, payload: seq<byte>, bigEndian: bool)
    requires s.count < 8 && |payload| + 2 < MAX_FRAME
    ensures var now := Delivered(h + BitRun(s, EncodeBits(payload, bigEndian, 0).out).1, bigEndian);
      || now == Delivered(h, bigEndian) + [payload]
      || exists other :: now == Delivered(h, bigEndian) + [other, payload]
  {
    hide BitRun, EncodeBits, Encode, Segment, Flushed, Delivered, Buffer;
    var early := ReadFrameBits(s, payload, bigEndian);
    var e := Encode(payload, bigEndian);
    var d := Delivered(h, bigEndian);
    Resynchronises(h + early, payload, bigEndian);
    assert h + (early + e) == (h + early) + e;
    var flushed := Flushed(Buffer(h + early), bigEndian);
    var d' := Delivered(h + early, bigEndian);
    if early == [] {
      assert h + early == h;
    } else {
      assert early == [early[0]];
      HearOne(h, early[0], bigEndian);
      if early[0] == FLAG {
        HearFlag(h, bigEndian);
        NothingInBuffer(bigEndian);
      }
    }
    AtMostOneOther(d, d', flushed, payload);
  }

  lemma AtMostOneOther(d: seq<seq<byte>>, d': seq<seq<byte>>, flushed: seq<seq<byte>>, payload: seq<byte>)
    requires d <= d' && |d'| + |flushed| <= |d| + 1
    ensures var now := d' + flushed + [payload];
      now == d + [payload] || exists other :: now == d + [other, payload]
  {
    var others := d'[|d|..] + flushed;
    assert d' + flushed + [payload] == d + others + [payload];
    if others == [] {
      assert d + others + [payload] == d + [payload];
    } else {
      assert others == [others[0]];
      assert d + others + [payload] == d + [others[0], payload];
    }
  }

  lemma NothingInBuffer(bigEndian: bool)
    ensures Flushed([], bigEndian) == []
  {
  }
}
