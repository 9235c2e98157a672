/** The run of ones a bit sender carries from one frame into the next, and what it does to the receiver. */
module HdlcBitCarry {
  import opened Crc
  import opened Hdlc
  import opened HdlcReception
  import opened HdlcBits
  import opened HdlcBitReception

  // ---- Transparency ----

  /** Starting after `run` ones, no run in these bits exceeds five. */
  predicate RunsShort(run: nat, bits: seq<byte>)
    decreases |bits|
  {
    bits == [] ||
    if bits[0] == 0 then RunsShort(0, bits[1..]) else run + 1 <= 5 && RunsShort(run + 1, bits[1..])
  }

  function RunAfter(run: nat, bits: seq<byte>): nat
    decreases |bits|
  {
    if bits == [] then run
    else RunAfter(if bits[0] == 0 then 0 else run + 1, bits[1..])
  }

  lemma {:induction false} RunsConcat(run: nat, a: seq<byte>, b: seq<byte>)
    ensures RunsShort(run, a + b) == (RunsShort(run, a) && RunsShort(RunAfter(run, a), b))
    ensures RunAfter(run, a + b) == RunAfter(RunAfter(run, a), b)
    decreases |a|
  {
    if a == [] {
      assert a + b == b;
    } else {
      assert (a + b)[1..] == a[1..] + b;
      RunsConcat(if a[0] == 0 then 0 else run + 1, a[1..], b);
    }
  }

  lemma RunsCons(run: nat, bit: byte, bits: seq<byte>)
    ensures bit == 0 ==> RunsShort(run, [bit] + bits) == RunsShort(0, bits)
    ensures bit == 0 ==> RunAfter(run, [bit] + bits) == RunAfter(0, bits)
    ensures bit != 0 ==> RunsShort(run, [bit] + bits) == (run + 1 <= 5 && RunsShort(run + 1, bits))
    ensures bit != 0 ==> RunAfter(run, [bit] + bits) == RunAfter(run + 1, bits)
  {
    assert ([bit] + bits)[1..] == bits;
  }

  lemma {:induction false} StuffedRuns(data: byte, n: nat, k: nat, run: nat)
    requires run <= k <= 4
    ensures var t := Stuff(data, n, k); RunsShort(run, t.out) && RunAfter(run, t.out) <= t.ones <= 4
    decreases n
  {
    hide Stuff, RunsShort, RunAfter;
    if n == 0 {
      StuffNone(data, k);
      NoRun(run);
    } else {
      StuffStep(data, n, k);
      LowBit(data);
      var next := if data & 1 == 0 || k == 4 then 0 else k + 1;
      StuffedRuns(data >> 1, n - 1, next, 0);
      var out := Stuff(data >> 1, n - 1, next).out;
      RunsCons(run, 0, out);
      if data & 1 == 1 {
        if k == 4 {
          RunsCons(run, 1, [0] + out);
          RunsCons(run + 1, 0, out);
        } else {
          StuffedRuns(data >> 1, n - 1, next, run + 1);
          RunsCons(run, 1, out);
        }
      }
    }
  }

  lemma NoRun(run: nat)
    ensures RunsShort(run, []) && RunAfter(run, []) == run
  {
  }

  lemma {:induction false} StuffedAllRuns(bytes: seq<byte>, k: nat)
    requires k <= 4
    ensures var t := StuffAll(bytes, k); RunsShort(0, t.out) && RunAfter(0, t.out) <= t.ones <= 4
  {
    hide Stuff, RunsShort, RunAfter;
    if bytes == [] {
      NoRun(0);
    } else {
      var n := |bytes| - 1;
      StuffedAllRuns(bytes[..n], k);
      var t := StuffAll(bytes[..n], k);
      StuffedRuns(bytes[n], 8, t.ones, RunAfter(0, t.out));
      RunsConcat(0, t.out, Stuff(bytes[n], 8, t.ones).out);
    }
  }

  ghost predicate ZeroAmongSix(bits: seq<byte>, i: nat) {
    exists j :: i <= j < i + 6 && j < |bits| && bits[j] == 0
  }

  lemma {:induction false} ZeroComes(run: nat, bits: seq<byte>)
    requires run <= 5 && RunsShort(run, bits) && |bits| >= 6 - run
    ensures exists j :: 0 <= j < 6 - run && bits[j] == 0
    decreases |bits|
  {
    if bits[0] != 0 {
      ZeroComes(run + 1, bits[1..]);
      var j :| 0 <= j < 5 - run && bits[1..][j] == 0;
      assert bits[j + 1] == 0;
    }
  }

  /** Between flags the line never carries six ones in a row, whatever run was carried in. */
  lemma {:induction false} NeverSixOnes(bytes: seq<byte>, k: nat)
    requires k <= 4
    ensures forall i: nat :: i + 6 <= |StuffAll(bytes, k).out| ==> ZeroAmongSix(StuffAll(bytes, k).out, i)
  {
    hide RunsShort, RunAfter, StuffAll;
    var bits := StuffAll(bytes, k).out;
    StuffedAllRuns(bytes, k);
    forall i: nat | i + 6 <= |bits| ensures ZeroAmongSix(bits, i) {
      assert bits == bits[..i] + bits[i..];
      RunsConcat(0, bits[..i], bits[i..]);
      var run := RunAfter(0, bits[..i]);
      RunsBound(0, bits[..i]);
      ZeroComes(run, bits[i..]);
      var j :| 0 <= j < 6 - run && bits[i..][j] == 0;
      assert bits[i + j] == 0;
    }
  }

  lemma {:induction false} RunsBound(run: nat, bits: seq<byte>)
    requires run <= 5 && RunsShort(run, bits)
    ensures RunAfter(run, bits) <= 5
    decreases |bits|
  {
    if bits != [] {
      RunsBound(if bits[0] == 0 then 0 else run + 1, bits[1..]);
    }
  }

  // ---- The carried run ----

  /** Ones at the start (low end) of the n low bits of a byte. */
  function LeadingOnes(data: byte, n: nat): (k: nat)
    ensures k <= n
    decreases n
  {
    if n == 0 || data & 1 == 0 then 0 else 1 + LeadingOnes(data >> 1, n - 1)
  }

  /** A carried run of ones does no harm when the first wire byte cannot extend it to five. */
  predicate Harmless(first: byte, carried: nat) {
    carried == 0 || LeadingOnes(first, 8) + carried < 5
  }

  lemma {:induction false} SameStuffing(data: byte, n: nat, k: nat, j: nat)
    requires LeadingOnes(data, n) < n && LeadingOnes(data, n) + k < 5 && LeadingOnes(data, n) + j < 5
    ensures Stuff(data, n, k) == Stuff(data, n, j)
    decreases n
  {
    hide Stuff;
    StuffStep(data, n, k);
    StuffStep(data, n, j);
    LowBit(data);
    if data & 1 == 1 {
      SameStuffing(data >> 1, n - 1, k + 1, j + 1);
    }
  }

  lemma {:induction false} SameStuffingAll(bytes: seq<byte>, k: nat)
    requires bytes != [] && Harmless(bytes[0], k)
    ensures StuffAll(bytes, k) == StuffAll(bytes, 0)
  {
    hide Stuff, LeadingOnes;
    var n := |bytes| - 1;
    if n > 0 {
      SameStuffingAll(bytes[..n], k);
    } else if k > 0 {
      SameStuffing(bytes[0], 8, k, 0);
      assert bytes[..0] == [];
    }
  }

  /** Bits taken in since the byte boundary: eight for every byte passed on, and those waiting. */
  predicate Took(s: BitRx, r: (BitRx, seq<byte>), n: nat) {
    r.0.count < 8 && 8 * |r.1| + r.0.count == s.count + n
  }

  lemma TookOne(s: BitRx, last8: byte, bit: byte)
    requires s.count < 8
    ensures Took(s, TakeBit(s, last8, bit), 1) && TakeBit(s, last8, bit).0.last8 == last8
  {
    hide ShiftIn;
  }

  lemma TookRun(s: BitRx, bit: byte, bits: seq<byte>, m: nat, n: nat)
    requires Took(s, BitStep(s, bit), m) && Took(BitStep(s, bit).0, BitRun(BitStep(s, bit).0, bits), n)
    ensures Took(s, BitRun(s, [bit] + bits), m + n)
    ensures BitRun(s, [bit] + bits).0 == BitRun(BitStep(s, bit).0, bits).0
  {
    hide BitRun, BitStep;
    BitRunCons(s, bit, bits);
  }

  lemma {:induction false} InStep(s: BitRx, data: byte, n: nat, k: nat)
    requires s.count < 8 && Synced(s.last8, k)
    ensures var t := Stuff(data, n, k);
      Took(s, BitRun(s, t.out), n) && Synced(BitRun(s, t.out).0.last8, t.ones)
    decreases n
  {
    hide Stuff, BitRun, BitStep, Synced, ShiftIn, TakeBit;
    SyncedBound(s.last8, k);
    if n == 0 {
      StuffNone(data, k);
      BitRunNone(s);
    } else {
      StuffStep(data, n, k);
      LowBit(data);
      if data & 1 == 0 {
        ReadZero(s, k);
        TookOne(s, ShiftIn(s.last8, 0), 0);
        InStep(BitStep(s, 0).0, data >> 1, n - 1, 0);
        TookRun(s, 0, Stuff(data >> 1, n - 1, 0).out, 1, n - 1);
      } else {
        ReadOne(s);
        TookOne(s, ShiftIn(s.last8, 1), 1);
        var t := BitStep(s, 1).0;
        if k == 4 {
          ReadFifthOne(s);
          InStep(BitStep(t, 0).0, data >> 1, n - 1, 0);
          TookRun(t, 0, Stuff(data >> 1, n - 1, 0).out, 0, n - 1);
          TookRun(s, 1, [0] + Stuff(data >> 1, n - 1, 0).out, 1, n - 1);
        } else {
          OneKeepsSync(s.last8, k);
          InStep(t, data >> 1, n - 1, k + 1);
          TookRun(s, 1, Stuff(data >> 1, n - 1, k + 1).out, 1, n - 1);
        }
      }
    }
  }

  /** When the sender counts more ones than the receiver saw and reaches five, the inserted zero is
      taken for data. */
  lemma {:induction false} OutOfStep(s: BitRx, data: byte, n: nat, j: nat, k: nat)
    requires s.count < 8 && Synced(s.last8, j) && j < k <= 4 && LeadingOnes(data, n) + k >= 5
    ensures var t := Stuff(data, n, k);
      Took(s, BitRun(s, t.out), n + 1) && Synced(BitRun(s, t.out).0.last8, t.ones)
    decreases n
  {
    hide Stuff, BitRun, BitStep, Synced, ShiftIn, TakeBit;
    StuffStep(data, n, k);
    LowBit(data);
    ReadOne(s);
    TookOne(s, ShiftIn(s.last8, 1), 1);
    OneKeepsSync(s.last8, j);
    var t := BitStep(s, 1).0;
    if k == 4 {
      ReadZero(t, j + 1);
      TookOne(t, ShiftIn(t.last8, 0), 0);
      InStep(BitStep(t, 0).0, data >> 1, n - 1, 0);
      TookRun(t, 0, Stuff(data >> 1, n - 1, 0).out, 1, n - 1);
      TookRun(s, 1, [0] + Stuff(data >> 1, n - 1, 0).out, 1, n);
    } else {
      OutOfStep(t, data >> 1, n - 1, j + 1, k + 1);
      TookRun(s, 1, Stuff(data >> 1, n - 1, k + 1).out, 1, n);
    }
  }

  lemma {:induction false} OutOfStepAll(bytes: seq<byte>, k: nat)
    requires bytes != [] && k <= 4 && !Harmless(bytes[0], k)
    ensures var s := BitRx(FLAG, 0, 0); var t := StuffAll(bytes, k);
      Took(s, BitRun(s, t.out), 8 * |bytes| + 1) && Synced(BitRun(s, t.out).0.last8, t.ones)
  {
    hide Stuff, BitRun, BitStep, Synced, LeadingOnes;
    var s := BitRx(FLAG, 0, 0);
    var n := |bytes| - 1;
    var before := StuffAll(bytes[..n], k);
    var m := BitRun(s, before.out).0;
    var last := Stuff(bytes[n], 8, before.ones);
    BitRunConcat(s, before.out, last.out);
    if n > 0 {
      OutOfStepAll(bytes[..n], k);
      InStep(m, bytes[n], 8, before.ones);
    } else {
      assert bytes[..0] == [];
      BitRunNone(s);
      AfterFlag();
      OutOfStep(s, bytes[0], 8, 0, k);
    }
  }

  /** After a flag, the bytes between two flags come through exactly when the carried run is harmless. */
  lemma CarriedRunIff(bytes: seq<byte>, k: nat)
    requires bytes != [] && k <= 4
    ensures BitRun(BitRx(FLAG, 0, 0), StuffAll(bytes, k).out + Plain(FLAG, 8)).1 == bytes + [FLAG]
       <==> Harmless(bytes[0], k)
  {
    hide BitRun, StuffAll, Synced, Harmless, Plain;
    var s := BitRx(FLAG, 0, 0);
    AfterFlag();
    BitRunConcat(s, StuffAll(bytes, k).out, Plain(FLAG, 8));
    if Harmless(bytes[0], k) {
      SameStuffingAll(bytes, k);
      ReadStuffedAll(s, bytes, 0);
      var early := ReadFlag(BitRun(s, StuffAll(bytes, k).out).0);
      assert early == [] && [] + [FLAG] == [FLAG];
    } else {
      OutOfStepAll(bytes, k);
      var r := BitRun(s, StuffAll(bytes, k).out);
      var early := ReadFlag(r.0);
      assert |r.1 + (early + [FLAG])| == |bytes| + 2;
    }
  }

  // ---- Streams of frames in bits ----

  /** The first byte of a frame between its flags. */
  function FirstByte(payload: seq<byte>, bigEndian: bool): byte {
    Escape(Body(payload, bigEndian)[0])[0]
  }

  lemma {:induction false} EscapeAllStarts(s: seq<byte>)
    requires s != []
    ensures EscapeAll(s) != [] && EscapeAll(s)[0] == Escape(s[0])[0]
  {
    var n := |s| - 1;
    if n > 0 {
      EscapeAllStarts(s[..n]);
    } else {
      assert EscapeAll(s[..0]) == [];
    }
  }

  /** The bits of a stream; the run of ones is carried from frame to frame, flags do not touch it. */
  function BitWire(items: seq<Item>, bigEndian: bool, ones: nat): Tx {
    if items == [] then Tx([], ones) else
    var before := BitWire(items[..|items| - 1], bigEndian, ones);
    match items[|items| - 1]
    case Idle => Tx(before.out + Plain(FLAG, 8), before.ones)
    case Packet(p) =>
      var t := EncodeBits(p, bigEndian, before.ones);
      Tx(before.out + t.out, t.ones)
  }

  /** At every frame the run carried in is harmless. */
  predicate CarriesHarmless(items: seq<Item>, bigEndian: bool, ones: nat) {
    items == [] ||
    var before := items[..|items| - 1];
    var last := items[|items| - 1];
    CarriesHarmless(before, bigEndian, ones) &&
    (last.Packet? ==> Harmless(FirstByte(last.payload, bigEndian), BitWire(before, bigEndian, ones).ones))
  }

  lemma EncodeBitsHarmless(payload: seq<byte>, bigEndian: bool, ones: nat)
    requires Harmless(FirstByte(payload, bigEndian), ones)
    ensures EncodeBits(payload, bigEndian, ones) == EncodeBits(payload, bigEndian, 0)
  {
    hide Harmless, Body, EscapeAll, Escape, StuffAll;
    EscapeAllStarts(Body(payload, bigEndian));
    SameStuffingAll(EscapeAll(Body(payload, bigEndian)), ones);
  }

  /** A receiver at a byte boundary passes on the same bytes as the byte-oriented link would carry. */
  lemma {:induction false} ReadBitWire(s: BitRx, items: seq<Item>, bigEndian: bool, ones: nat)
    requires s.count == 0 && Synced(s.last8, 0) && CarriesHarmless(items, bigEndian, ones)
    ensures BitRun(s, BitWire(items, bigEndian, ones).out).1 == Wire(items, bigEndian)
  {
    hide *;
    ReadBitWireInStep(s, items, bigEndian, ones);
  }

  lemma {:induction false} ReadBitWireInStep(s: BitRx, items: seq<Item>, bigEndian: bool, ones: nat)
    requires s.count == 0 && Synced(s.last8, 0) && CarriesHarmless(items, bigEndian, ones)
    ensures var r := BitRun(s, BitWire(items, bigEndian, ones).out);
      r.1 == Wire(items, bigEndian) && r.0.count == 0 && Synced(r.0.last8, 0)
  {
    hide BitRun, Synced, Harmless, EncodeBits, Encode, Plain, FirstByte;
    if items == [] {
      BitRunNone(s);
    } else {
      var n := |items| - 1;
      ReadBitWireInStep(s, items[..n], bigEndian, ones);
      var before := BitWire(items[..n], bigEndian, ones);
      var m := BitRun(s, before.out).0;
      AfterFlag();
      match items[n]
      case Idle =>
        var early := ReadFlag(m);
        assert early == [] && [] + [FLAG] == [FLAG];
        BitRunConcat(s, before.out, Plain(FLAG, 8));
      case Packet(p) =>
        EncodeBitsHarmless(p, bigEndian, before.ones);
        var early := ReadFrameBits(m, p, bigEndian);
        assert early == [] && [] + Encode(p, bigEndian) == Encode(p, bigEndian);
        BitRunConcat(s, before.out, EncodeBits(p, bigEndian, before.ones).out);
    }
  }

  /** A stream of frames in bits delivers exactly its payloads as long as no carried run does harm. */
  lemma BitStreamDelivers(items: seq<Item>, bigEndian: bool)
    requires Fits(items) && CarriesHarmless(items, bigEndian, 0)
    ensures Delivered(BitRun(START, BitWire(items, bigEndian, 0).out).1, bigEndian) == Sent(items)
  {
    hide BitRun, Synced, CarriesHarmless, BitWire, Fits, Delivered, Wire;
    AfterFlag();
    ReadBitWire(START, items, bigEndian, 0);
    FreshStream(items, bigEndian);
  }

  // ---- Two empty frames ----

  lemma TwoBits(s: BitRx, a: byte, b: byte)
    ensures var r := BitStep(s, a); var t := BitStep(r.0, b); BitRun(s, [a, b]) == (t.0, r.1 + t.1)
  {
    hide BitStep;
    BitRunOne(s, a);
    BitRunOne(BitStep(s, a).0, b);
    BitRunConcat(s, [a], [b]);
    assert [a] + [b] == [a, b];
  }

  lemma FourBits(s: BitRx, a: byte, b: byte, c: byte, d: byte)
    ensures var r := BitRun(s, [a, b]); var t := BitRun(r.0, [c, d]);
      BitRun(s, [a, b, c, d]) == (t.0, r.1 + t.1)
  {
    hide BitRun;
    BitRunConcat(s, [a, b], [c, d]);
    assert [a, b] + [c, d] == [a, b, c, d];
  }

  lemma ReadFour(s: BitRx, a: byte, b: byte, c: byte, d: byte)
    ensures var r1 := BitStep(s, a); var r2 := BitStep(r1.0, b); var r3 := BitStep(r2.0, c);
      var r4 := BitStep(r3.0, d);
      BitRun(s, [a, b, c, d]) == (r4.0, (r1.1 + r2.1) + (r3.1 + r4.1))
  {
    hide BitStep, BitRun;
    TwoBits(s, a, b);
    TwoBits(BitStep(BitStep(s, a).0, b).0, c, d);
    FourBits(s, a, b, c, d);
  }

  /** The bits of the check sequence of an empty frame after a run of one, in fours. */
  lemma GarbledBits()
    ensures StuffAll([0xFF, 0xFF], 1).out + Plain(FLAG, 8)
         == [1, 1, 1, 1] + [0, 1, 1, 1] + [1, 1, 0, 1] + [1, 1, 1, 1] + [0, 1, 1, 0] + [1, 1, 1, 1] + [1, 1] + [0]
  {
    hide Stuff, Plain;
    var w: seq<byte> := [0xFF, 0xFF];
    assert w[..1] == [0xFF] && w[..1][..0] == [];
    OnesAfterOne();
    OnesAfterFour();
    FlagBits();
    var none: seq<byte> := [];
    assert none + Stuff(0xFF, 8, 1).out == Stuff(0xFF, 8, 1).out;
    assert StuffAll([0xFF], 1) == Stuff(0xFF, 8, 1);
    assert Ones(6) == [1, 1, 1, 1, 1, 1];
  }

  lemma OnesAfterOne()
    ensures Stuff(0xFF, 8, 1) == Tx([1, 1, 1, 1, 0, 1, 1, 1, 1], 4)
  {
    hide Stuff;
    StuffStep(0xFF, 8, 1);
    StuffStep(0x7F, 7, 2);
    StuffStep(0x3F, 6, 3);
    StuffStep(0x1F, 5, 4);
    FourOnes();
    var t: seq<byte> := [1, 1, 1, 1];
    assert [1] + ([1] + ([1] + ([1] + ([0] + t)))) == [1, 1, 1, 1, 0, 1, 1, 1, 1];
  }

  lemma FourOnes()
    ensures Stuff(0x0F, 4, 0) == Tx([1, 1, 1, 1], 4)
  {
    hide Stuff;
    StuffStep(0x0F, 4, 0);
    StuffStep(0x07, 3, 1);
    StuffStep(0x03, 2, 2);
    StuffStep(0x01, 1, 3);
    StuffNone(0, 4);
    var none: seq<byte> := [];
    assert [1] + ([1] + ([1] + ([1] + none))) == [1, 1, 1, 1];
  }

  lemma OnesAfterFour()
    ensures Stuff(0xFF, 8, 4) == Tx([1, 0, 1, 1, 1, 1, 1, 0, 1, 1], 2)
  {
    hide Stuff;
    StuffStep(0xFF, 8, 4);
    StuffStep(0x7F, 7, 0);
    StuffStep(0x3F, 6, 1);
    StuffStep(0x1F, 5, 2);
    StuffStep(0x0F, 4, 3);
    StuffStep(0x07, 3, 4);
    StuffStep(0x03, 2, 0);
    StuffStep(0x01, 1, 1);
    StuffNone(0, 2);
    var none: seq<byte> := [];
    var t: seq<byte> := [1] + ([1] + none);
    assert [1] + ([0] + ([1] + ([1] + ([1] + ([1] + ([1] + ([0] + t))))))) == [1, 0, 1, 1, 1, 1, 1, 0, 1, 1];
  }

  lemma Blank(x: byte)
    ensures var none: seq<byte> := []; none + none == none && none + [x] == [x] && [x] + none == [x]
  {
  }

  lemma FirstGarbled()
    ensures BitRun(BitRx(FLAG, 0, 0), [1, 1, 1, 1]) == (BitRx(0xF7, 0xF0, 4), [])
    ensures BitRun(BitRx(0xF7, 0xF0, 4), [0, 1, 1, 1]) == (BitRx(0xEF, 0, 0), [0xEF])
  {
    Blank(0xEF);
    ReadFour(BitRx(FLAG, 0, 0), 1, 1, 1, 1);
    ReadFour(BitRx(0xF7, 0xF0, 4), 0, 1, 1, 1);
  }

  lemma SecondGarbled()
    ensures BitRun(BitRx(0xEF, 0, 0), [1, 1, 0, 1]) == (BitRx(0xBE, 0xE0, 3), [])
    ensures BitRun(BitRx(0xBE, 0xE0, 3), [1, 1, 1, 1]) == (BitRx(0xFB, 0xFE, 7), [])
  {
    Blank(0);
    ReadFour(BitRx(0xEF, 0, 0), 1, 1, 0, 1);
    ReadFour(BitRx(0xBE, 0xE0, 3), 1, 1, 1, 1);
  }

  lemma ThirdGarbled()
    ensures BitRun(BitRx(0xFB, 0xFE, 7), [0, 1, 1, 0]) == (BitRx(0x6F, 0x40, 2), [0xFF])
    ensures BitRun(BitRx(0x6F, 0x40, 2), [1, 1, 1, 1]) == (BitRx(0xF6, 0xF4, 6), [])
  {
    Blank(0xFF);
    ReadFour(BitRx(0xFB, 0xFE, 7), 0, 1, 1, 0);
    ReadFour(BitRx(0x6F, 0x40, 2), 1, 1, 1, 1);
  }

  lemma LastGarbled()
    ensures BitRun(BitRx(0xF6, 0xF4, 6), [1, 1]) == (BitRx(0xFD, 0, 0), [0xFD])
    ensures BitRun(BitRx(0xFD, 0, 0), [0]) == (BitRx(FLAG, 0, 0), [FLAG])
  {
    Blank(0xFD);
    TwoBits(BitRx(0xF6, 0xF4, 6), 1, 1);
    BitRunOne(BitRx(0xFD, 0, 0), 0);
  }

  /** The bits of the second frame, behind its opening flag, come out as other bytes. */
  lemma GarbledBytes()
    ensures BitRun(BitRx(FLAG, 0, 0), StuffAll([0xFF, 0xFF], 1).out + Plain(FLAG, 8))
         == (BitRx(FLAG, 0, 0), [0xEF, 0xFF, 0xFD, FLAG])
  {
    hide *;
    var s := BitRx(FLAG, 0, 0);
    var b1: seq<byte>, b2: seq<byte>, b3: seq<byte> := [1, 1, 1, 1], [0, 1, 1, 1], [1, 1, 0, 1];
    var b4: seq<byte>, b5: seq<byte>, b6: seq<byte> := [1, 1, 1, 1], [0, 1, 1, 0], [1, 1, 1, 1];
    GarbledBits();
    FirstGarbled();
    SecondGarbled();
    ThirdGarbled();
    LastGarbled();
    BitRunConcat(s, b1, b2);
    BitRunConcat(s, b1 + b2, b3);
    BitRunConcat(s, b1 + b2 + b3, b4);
    BitRunConcat(s, b1 + b2 + b3 + b4, b5);
    BitRunConcat(s, b1 + b2 + b3 + b4 + b5, b6);
    BitRunConcat(s, b1 + b2 + b3 + b4 + b5 + b6, [1, 1]);
    BitRunConcat(s, b1 + b2 + b3 + b4 + b5 + b6 + [1, 1], [0]);
    var none: seq<byte> := [];
    assert none + [0xEF] + none + none + [0xFF] + none + [0xFD] + [FLAG] == [0xEF, 0xFF, 0xFD, FLAG];
  }

  /** An empty frame is its check sequence, and leaves a run of one behind. */
  lemma EmptyFrame(bigEndian: bool)
    ensures EscapeAll(Body([], bigEndian)) == [0xFF, 0xFF]
    ensures EncodeBits([], bigEndian, 0).ones == 1
    ensures EncodeBits([], bigEndian, 1).out == Plain(FLAG, 8) + (StuffAll([0xFF, 0xFF], 1).out + Plain(FLAG, 8))
  {
    hide Plain;
    assert CheckSequence([]) == 0xFFFF;
    assert Body([], bigEndian) == [0xFF, 0xFF];
    var w: seq<byte> := [0xFF, 0xFF];
    assert w[..1] == [0xFF] && w[..1][..0] == [];
    assert EscapeAll([0xFF]) == [0xFF];
    assert EscapeAll(w) == w;
    assert StuffAll([0xFF], 0).ones == Stuff(0xFF, 8, 0).ones == 3;
    assert Stuff(0xFF, 8, 3).ones == 1;
    var t := StuffAll(w, 1).out;
    assert Plain(FLAG, 8) + t + Plain(FLAG, 8) == Plain(FLAG, 8) + (t + Plain(FLAG, 8));
  }

  lemma GarbledIsBad(bigEndian: bool)
    ensures Close(Held(Unescape([0xEF, 0xFF, 0xFD]).data), bigEndian) == BadCrc
  {
    hide CheckSequence, FcsBytes, Unescape, Held;
    var none: seq<byte>, g: seq<byte> := [], [0xEF, 0xFF, 0xFD];
    EmptySegment();
    UnescapeOnWire(none, 0xEF);
    UnescapeOnWire(none + [0xEF], 0xFF);
    UnescapeOnWire(none + [0xEF] + [0xFF], 0xFD);
    assert none + [0xEF] + [0xFF] + [0xFD] == g;
    HeldAll(g);
    assert g[..1] == [0xEF] && g[1..] == [0xFF, 0xFD];
    GarbledCheck(bigEndian);
  }

  lemma GarbledCheck(bigEndian: bool)
    ensures FcsBytes(CheckSequence([0xEF]), bigEndian) != [0xFF, 0xFD]
  {
    hide Update;
    var e: seq<byte> := [0xEF];
    assert e[..0] == [];
    assert CheckSequence(e) == Update(INIT_VAL, 0xEF);
    GarbledUpdate();
    assert FcsBytes(0xED31, bigEndian)[0] != 0xFF;
  }

  lemma GarbledUpdate()
    ensures Update(0xFFFF, 0xEF) == 0xED31
  {
  }

  /** The run that one empty frame leaves behind garbles the next: of two empty frames the first is
      delivered, and the second ends as a check error. */
  lemma SecondEmptyFrameGarbled(bigEndian: bool)
    ensures var first := EncodeBits([], bigEndian, 0);
      var heard := BitRun(START, first.out + EncodeBits([], bigEndian, first.ones).out).1;
      && Events(heard, bigEndian) == [Runt, Frame([]), Runt, BadCrc]
      && Delivered(heard, bigEndian) == [[]]
  {
    hide *;
    var s := BitRx(FLAG, 0, 0);
    var first := EncodeBits([], bigEndian, 0);
    EmptyFrame(bigEndian);
    AfterFlag();
    FirstFrame(bigEndian);
    var early' := ReadFlag(s);
    GarbledBytes();
    var second := EncodeBits([], bigEndian, 1).out;
    BitRunConcat(s, Plain(FLAG, 8), StuffAll([0xFF, 0xFF], 1).out + Plain(FLAG, 8));
    BitRunConcat(START, first.out, second);
    var h := BitRun(START, first.out).1;
    var g: seq<byte> := [0xEF, 0xFF, 0xFD];
    assert [] + [FLAG] + [0xEF, 0xFF, 0xFD, FLAG] == [FLAG] + g + [FLAG];
    assert h + ([FLAG] + g + [FLAG]) == (h + [FLAG]) + g + [FLAG];
    GarbledEvents(h, bigEndian);
  }

  lemma FirstFrame(bigEndian: bool)
    ensures var r := BitRun(START, EncodeBits([], bigEndian, 0).out);
      && r.0 == BitRx(FLAG, 0, 0)
      && Events(r.1, bigEndian) == [Runt, Frame([])] && Segment(r.1) == []
  {
    hide BitRun, EncodeBits, Encode, Segment, Events, Delivered, Synced;
    AfterFlag();
    var early := ReadFrameBits(START, [], bigEndian);
    BitRoundTrip([], bigEndian);
  }

  lemma GarbledEvents(h: seq<byte>, bigEndian: bool)
    requires Events(h, bigEndian) == [Runt, Frame([])] && Segment(h) == []
    ensures var heard := (h + [FLAG]) + [0xEF, 0xFF, 0xFD] + [FLAG];
      Events(heard, bigEndian) == [Runt, Frame([]), Runt, BadCrc] && Delivered(heard, bigEndian) == [[]]
  {
    hide Events, Segment, Unescape, Close, Payloads, Held;
    var g: seq<byte> := [0xEF, 0xFF, 0xFD];
    var e1: seq<Event>, e2: seq<Event> := [Runt], [Runt, Frame([])];
    NothingBuffered(h, bigEndian);
    HearFlag(h, bigEndian);
    HearDataBytes(h + [FLAG], g, bigEndian);
    HearFlag(h + [FLAG] + g, bigEndian);
    assert [] + g == g;
    GarbledIsBad(bigEndian);
    NoPayloads();
    PayloadsAppend([], Runt);
    PayloadsAppend(e1, Frame([]));
    PayloadsAppend(e2, Runt);
    PayloadsAppend(e2 + [Runt], BadCrc);
    assert [] + [Runt] == e1 && e1 + [Frame([])] == e2 && e2 + [Runt] + [BadCrc] == [Runt, Frame([]), Runt, BadCrc];
    var none: seq<seq<byte>> := [];
    assert none + none == none && none + [[]] == [[]];
  }

  // ---- Without the stuffing ----

  /** What is left of a line of bits without the one behind every five ones, and the run it ends in. */
  function Unstuff(bits: seq<byte>, run: nat): (seq<byte>, nat)
    decreases |bits|
  {
    if bits == [] then ([], run)
    else if run == 5 then Unstuff(bits[1..], 0)
    else
      var rest := Unstuff(bits[1..], if bits[0] == 0 then 0 else run + 1);
      ([bits[0]] + rest.0, rest.1)
  }

  lemma {:induction false} UnstuffConcat(a: seq<byte>, b: seq<byte>, run: nat)
    ensures var r := Unstuff(a, run); Unstuff(a + b, run) == (r.0 + Unstuff(b, r.1).0, Unstuff(b, r.1).1)
    decreases |a|
  {
    if a == [] {
      assert a + b == b;
      assert [] + Unstuff(b, run).0 == Unstuff(b, run).0;
    } else {
      assert (a + b)[1..] == a[1..] + b;
      if run == 5 {
        UnstuffConcat(a[1..], b, 0);
      } else {
        var next := if a[0] == 0 then 0 else run + 1;
        UnstuffConcat(a[1..], b, next);
        var r := Unstuff(a[1..], next);
        assert ([a[0]] + r.0) + Unstuff(b, r.1).0 == [a[0]] + (r.0 + Unstuff(b, r.1).0);
      }
    }
  }

  lemma UnstuffCons(bit: byte, bits: seq<byte>, run: nat)
    requires run < 5
    ensures var r := Unstuff(bits, if bit == 0 then 0 else run + 1);
      Unstuff([bit] + bits, run) == ([bit] + r.0, r.1)
  {
    assert ([bit] + bits)[1..] == bits;
  }

  lemma UnstuffDrop(bit: byte, bits: seq<byte>)
    ensures Unstuff([bit] + bits, 5) == Unstuff(bits, 0)
  {
    assert ([bit] + bits)[1..] == bits;
  }

  lemma PlainNext(data: byte, n: nat)
    requires n > 0
    ensures Plain(data, n) == [data & 1] + Plain(data >> 1, n - 1)
  {
  }

  lemma {:induction false} StuffedByteIsPlain(data: byte, n: nat, k: nat)
    requires k <= 4
    ensures var t := Stuff(data, n, k); Unstuff(t.out, k) == (Plain(data, n), t.ones) && t.ones <= 4
    decreases n
  {
    hide Stuff, Unstuff, Plain;
    if n == 0 {
      StuffNone(data, k);
      NothingToUnstuff(data, k);
    } else {
      StuffStep(data, n, k);
      PlainNext(data, n);
      LowBit(data);
      var next := if data & 1 == 0 || k == 4 then 0 else k + 1;
      var rest := Stuff(data >> 1, n - 1, next).out;
      StuffedByteIsPlain(data >> 1, n - 1, next);
      if data & 1 == 0 {
        UnstuffCons(0, rest, k);
      } else if k == 4 {
        UnstuffCons(1, [0] + rest, k);
        UnstuffDrop(0, rest);
      } else {
        UnstuffCons(1, rest, k);
      }
    }
  }

  lemma NothingToUnstuff(data: byte, k: nat)
    ensures Unstuff([], k) == ([], k) && Plain(data, 0) == []
  {
  }

  /** Bytes as bits, low bit first. */
  function PlainAll(bytes: seq<byte>): seq<byte> {
    if bytes == [] then [] else PlainAll(bytes[..|bytes| - 1]) + Plain(bytes[|bytes| - 1], 8)
  }

  lemma PlainFour(d: byte, n: nat)
    requires n >= 4
    ensures Plain(d, n) == [d & 1, (d >> 1) & 1, (d >> 2) & 1, (d >> 3) & 1] + Plain(d >> 4, n - 4)
  {
    hide Plain;
    ShiftTwice(d);
    PlainNext(d, n);
    PlainNext(d >> 1, n - 1);
    PlainNext(d >> 2, n - 2);
    PlainNext(d >> 3, n - 3);
    FourJoined(d & 1, (d >> 1) & 1, (d >> 2) & 1, (d >> 3) & 1, Plain(d >> 4, n - 4));
  }

  lemma FourJoined(a: byte, b: byte, c: byte, d: byte, rest: seq<byte>)
    ensures [a] + ([b] + ([c] + ([d] + rest))) == [a, b, c, d] + rest
  {
  }

  lemma ShiftByFour(d: byte)
    ensures (d >> 4) >> 1 == d >> 5 && (d >> 4) >> 2 == d >> 6 && (d >> 4) >> 3 == d >> 7
  {
  }

  lemma PlainBits(d: byte)
    ensures Plain(d, 8) == [d & 1, (d >> 1) & 1, (d >> 2) & 1, (d >> 3) & 1]
                         + [(d >> 4) & 1, (d >> 5) & 1, (d >> 6) & 1, (d >> 7) & 1]
  {
    hide Plain;
    PlainFour(d, 8);
    PlainFour(d >> 4, 4);
    ShiftByFour(d);
    NothingToUnstuff((d >> 4) >> 4, 0);
    var low := [d & 1, (d >> 1) & 1, (d >> 2) & 1, (d >> 3) & 1];
    var high := [(d >> 4) & 1, (d >> 5) & 1, (d >> 6) & 1, (d >> 7) & 1];
    assert high + [] == high;
  }

  /** The stuffed bits of any bytes, for every carried run, are their plain bits with one more behind every
      five ones and nothing else. */
  lemma {:induction false} StuffedIsPlain(bytes: seq<byte>, k: nat)
    requires k <= 4
    ensures var t := StuffAll(bytes, k); Unstuff(t.out, k) == (PlainAll(bytes), t.ones) && t.ones <= 4
  {
    hide Stuff, Unstuff, Plain;
    if bytes == [] {
      NothingToUnstuff(0, k);
    } else {
      var n := |bytes| - 1;
      StuffedIsPlain(bytes[..n], k);
      var t := StuffAll(bytes[..n], k);
      StuffedByteIsPlain(bytes[n], 8, t.ones);
      UnstuffConcat(t.out, Stuff(bytes[n], 8, t.ones).out, k);
    }
  }
}
