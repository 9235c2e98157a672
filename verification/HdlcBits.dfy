/** The bit-oriented form of the link: zero-bit insertion under the byte framing. */
module HdlcBits {
  import opened Crc
  import opened Hdlc

  // ---- Sending ----

  /** Bits handed to the line and the run of ones the sender remembers afterwards. */
  datatype Tx = Tx(out: seq<byte>, ones: nat)

  /** The n low bits of a byte, low bit first, with a zero inserted after every fifth one. */
  function Stuff(data: byte, n: nat, ones: nat): Tx
    decreases n
  {
    if n == 0 then Tx([], ones)
    else if data & 1 == 0 then
      var rest := Stuff(data >> 1, n - 1, 0);
      Tx([0] + rest.out, rest.ones)
    else if ones + 1 == 5 then
      var rest := Stuff(data >> 1, n - 1, 0);
      Tx([1, 0] + rest.out, rest.ones)
    else
      var rest := Stuff(data >> 1, n - 1, ones + 1);
      Tx([1] + rest.out, rest.ones)
  }

  function StuffAll(s: seq<byte>, ones: nat): Tx {
    if s == [] then Tx([], ones) else
    var before := StuffAll(s[..|s| - 1], ones);
    var last := Stuff(s[|s| - 1], 8, before.ones);
    Tx(before.out + last.out, last.ones)
  }

  /** The n low bits of a byte, low bit first, as they are. */
  function Plain(data: byte, n: nat): seq<byte>
    decreases n
  {
    if n == 0 then [] else [data & 1] + Plain(data >> 1, n - 1)
  }

  /** A whole frame in bits; the flags are neither stuffed nor counted. */
  function EncodeBits(payload: seq<byte>, bigEndian: bool, ones: nat): Tx {
    var t := StuffAll(EscapeAll(Body(payload, bigEndian)), ones);
    Tx(Plain(FLAG, 8) + t.out + Plain(FLAG, 8), t.ones)
  }

  // ---- Receiving ----

  /** The last eight bits seen, the byte being assembled, and how many bits it holds. */
  datatype BitRx = BitRx(last8: byte, acc: byte, count: nat)

  const START := BitRx(0, 0, 0)

  function ShiftIn(b: byte, bit: byte): byte {
    (b >> 1) | (if bit != 0 then 0x80 else 0)
  }

  /** A data bit: the assembled byte is complete at the eighth. */
  function TakeBit(s: BitRx, last8: byte, bit: byte): (BitRx, seq<byte>) {
    var acc := ShiftIn(s.acc, bit);
    if s.count + 1 == 8 then (BitRx(last8, 0, 0), [acc]) else (BitRx(last8, acc, s.count + 1), [])
  }

  /** The next state, and the byte (if any) passed on to the byte receiver. */
  function BitStep(s: BitRx, bit: byte): (BitRx, seq<byte>) {
    var last8 := ShiftIn(s.last8, bit);
    if last8 == FLAG then (BitRx(last8, 0, 0), [FLAG])
    else if last8 & 0xFC == 0x7C then (s.(last8 := last8), [])
    else TakeBit(s, last8, bit)
  }

  function BitRun(s: BitRx, bits: seq<byte>): (BitRx, seq<byte>) {
    if bits == [] then (s, []) else
    var before := BitRun(s, bits[..|bits| - 1]);
    var last := BitStep(before.0, bits[|bits| - 1]);
    (last.0, before.1 + last.1)
  }

  lemma {:induction false} BitRunConcat(s: BitRx, a: seq<byte>, b: seq<byte>)
    ensures BitRun(s, a + b) == (BitRun(BitRun(s, a).0, b).0, BitRun(s, a).1 + BitRun(BitRun(s, a).0, b).1)
  {
    hide BitStep;
    if b == [] {
      assert a + b == a;
      assert BitRun(s, a).1 + [] == BitRun(s, a).1;
    } else {
      var n := |b| - 1;
      BitRunConcat(s, a, b[..n]);
      assert (a + b)[..|a + b| - 1] == a + b[..n] && (a + b)[|a + b| - 1] == b[n];
      var m := BitRun(BitRun(s, a).0, b[..n]);
      var l := BitStep(m.0, b[n]);
      assert (BitRun(s, a).1 + m.1) + l.1 == BitRun(s, a).1 + (m.1 + l.1);
    }
  }

  lemma BitRunOne(s: BitRx, bit: byte)
    ensures BitRun(s, [bit]) == BitStep(s, bit)
  {
    hide BitStep;
    assert [bit][..0] == [];
    var r := BitStep(s, bit);
    assert [] + r.1 == r.1;
  }

  // ---- One bit, whatever came before ----

  /** Every bit but zero is a one. */
  lemma AnyOne(s: BitRx, bit: byte)
    requires bit != 0
    ensures BitStep(s, bit) == BitStep(s, 1)
  {
    hide ShiftIn;
    AnyOneIn(s.last8, bit);
    AnyOneIn(s.acc, bit);
  }

  lemma AnyOneIn(b: byte, bit: byte)
    requires bit != 0
    ensures ShiftIn(b, bit) == ShiftIn(b, 1)
  {
  }

  /** A one is always data. */
  lemma OneRead(s: BitRx)
    ensures var acc := (s.acc >> 1) | 0x80;
      BitStep(s, 1) == if s.count == 7 then (BitRx((s.last8 >> 1) | 0x80, 0, 0), [acc])
                       else (BitRx((s.last8 >> 1) | 0x80, acc, s.count + 1), [])
  {
    TopBitIsData(s.last8);
  }

  lemma TopBitIsData(last8: byte)
    ensures ((last8 >> 1) | 0x80) != 0x7E && ((last8 >> 1) | 0x80) & 0xFC != 0x7C
  {
  }

  /** A zero behind exactly six ones is the end of a flag, behind five ones or more than six it is dropped, and
      otherwise it is data. */
  lemma ZeroRead(s: BitRx)
    ensures BitStep(s, 0) ==
      if s.last8 & 0xFE == 0xFC then (BitRx(0x7E, 0, 0), [0x7E])
      else if s.last8 & 0xF8 == 0xF8 then (BitRx(s.last8 >> 1, s.acc, s.count), [])
      else if s.count == 7 then (BitRx(s.last8 >> 1, 0, 0), [s.acc >> 1])
      else (BitRx(s.last8 >> 1, s.acc >> 1, s.count + 1), [])
  {
    ZeroBits(s.last8, s.acc);
  }

  lemma ZeroBits(last8: byte, acc: byte)
    ensures ShiftIn(last8, 0) == last8 >> 1 && ShiftIn(acc, 0) == acc >> 1
    ensures last8 >> 1 == 0x7E <==> last8 & 0xFE == 0xFC
    ensures (last8 >> 1) & 0xFC == 0x7C <==> last8 & 0xF8 == 0xF8
  {
  }

  // ---- One stuffed bit ----

  /** The receiver has just seen exactly k ones after a zero. */
  predicate Synced(last8: byte, k: nat) {
    || (k == 0 && last8 & 0x80 == 0)
    || (k == 1 && last8 & 0xC0 == 0x80)
    || (k == 2 && last8 & 0xE0 == 0xC0)
    || (k == 3 && last8 & 0xF0 == 0xE0)
    || (k == 4 && last8 & 0xF8 == 0xF0)
  }

  lemma ZeroKeepsSync(last8: byte, k: nat)
    requires Synced(last8, k)
    ensures ShiftIn(last8, 0) != FLAG && ShiftIn(last8, 0) & 0xFC != 0x7C && Synced(ShiftIn(last8, 0), 0)
  {
  }

  lemma OneKeepsSync(last8: byte, k: nat)
    requires Synced(last8, k) && k < 4
    ensures Synced(ShiftIn(last8, 1), k + 1)
  {
  }

  lemma OneIsData(last8: byte)
    ensures ShiftIn(last8, 1) != FLAG && ShiftIn(last8, 1) & 0xFC != 0x7C
  {
  }

  lemma FifthOne(last8: byte)
    requires Synced(last8, 4)
    ensures var l := ShiftIn(ShiftIn(last8, 1), 0); l != FLAG && l & 0xFC == 0x7C && Synced(l, 0)
  {
  }

  lemma ReadZero(s: BitRx, k: nat)
    requires Synced(s.last8, k)
    ensures BitStep(s, 0) == TakeBit(s, ShiftIn(s.last8, 0), 0) && Synced(BitStep(s, 0).0.last8, 0)
  {
    hide Synced, ShiftIn;
    ZeroKeepsSync(s.last8, k);
  }

  lemma ReadOne(s: BitRx)
    ensures BitStep(s, 1) == TakeBit(s, ShiftIn(s.last8, 1), 1)
  {
    hide ShiftIn;
    OneIsData(s.last8);
  }

  lemma ReadFifthOne(s: BitRx)
    requires Synced(s.last8, 4)
    ensures var t := BitStep(s, 1); var l := ShiftIn(ShiftIn(s.last8, 1), 0);
      BitStep(t.0, 0) == (t.0.(last8 := l), []) && Synced(l, 0)
  {
    hide ShiftIn, Synced;
    ReadOne(s);
    FifthOne(s.last8);
  }

  // ---- One stuffed byte ----

  /** The assembled byte after n more bits of data, low bit first. */
  function Load(acc: byte, data: byte, n: nat): byte
    decreases n
  {
    if n == 0 then acc else Load(ShiftIn(acc, data & 1), data >> 1, n - 1)
  }

  lemma LowBit(data: byte)
    ensures data & 1 == 0 || data & 1 == 1
  {
  }

  lemma BitRunCons(s: BitRx, bit: byte, bits: seq<byte>)
    ensures var t := BitStep(s, bit); BitRun(s, [bit] + bits) == (BitRun(t.0, bits).0, t.1 + BitRun(t.0, bits).1)
  {
    BitRunOne(s, bit);
    BitRunConcat(s, [bit], bits);
  }

  lemma StuffStep(data: byte, n: nat, ones: nat)
    requires n > 0
    ensures data & 1 == 0 ==>
      Stuff(data, n, ones) == Tx([0] + Stuff(data >> 1, n - 1, 0).out, Stuff(data >> 1, n - 1, 0).ones)
    ensures data & 1 == 1 && ones + 1 == 5 ==>
      Stuff(data, n, ones) == Tx([1] + ([0] + Stuff(data >> 1, n - 1, 0).out), Stuff(data >> 1, n - 1, 0).ones)
    ensures data & 1 == 1 && ones + 1 != 5 ==>
      Stuff(data, n, ones) == Tx([1] + Stuff(data >> 1, n - 1, ones + 1).out, Stuff(data >> 1, n - 1, ones + 1).ones)
  {
    var rest := Stuff(data >> 1, n - 1, 0).out;
    assert [1, 0] + rest == [1] + ([0] + rest);
  }

  /** The receiver drops exactly the zeros the sender inserted: the last n bits of a byte arrive, and
      the byte (whatever was in place before) is passed on. */
  lemma {:induction false} ReadStuffed(s: BitRx, data: byte, n: nat, k: nat)
    requires 1 <= n <= 8 && s.count == 8 - n && Synced(s.last8, k)
    ensures var t := Stuff(data, n, k); var r := BitRun(s, t.out);
      r.1 == [Load(s.acc, data, n)] && r.0.acc == 0 && r.0.count == 0 && Synced(r.0.last8, t.ones)
    decreases n
  {
    hide Stuff, BitRun, BitStep, Synced, ShiftIn;
    StuffStep(data, n, k);
    LowBit(data);
    var acc := ShiftIn(s.acc, data & 1);
    assert Load(s.acc, data, n) == Load(acc, data >> 1, n - 1);
    BitRunNone(BitStep(s, 1).0);
    BitRunNone(BitStep(s, 0).0);
    StuffNone(data >> 1, 0);
    StuffNone(data >> 1, k + 1);
    SyncedBound(s.last8, k);
    if data & 1 == 0 {
      var rest := Stuff(data >> 1, n - 1, 0);
      BitRunCons(s, 0, rest.out);
      ReadZero(s, k);
      if n > 1 {
        ReadStuffed(BitStep(s, 0).0, data >> 1, n - 1, 0);
      }
    } else if k == 4 {
      var rest := Stuff(data >> 1, n - 1, 0);
      var t := BitStep(s, 1).0;
      var l := ShiftIn(ShiftIn(s.last8, 1), 0);
      var u := t.(last8 := l);
      BitRunCons(s, 1, [0] + rest.out);
      BitRunCons(t, 0, rest.out);
      ReadOne(s);
      ReadFifthOne(s);
      BitRunNone(u);
      if n > 1 {
        ReadStuffed(u, data >> 1, n - 1, 0);
      }
    } else {
      var rest := Stuff(data >> 1, n - 1, k + 1);
      BitRunCons(s, 1, rest.out);
      ReadOne(s);
      OneKeepsSync(s.last8, k);
      if n > 1 {
        ReadStuffed(BitStep(s, 1).0, data >> 1, n - 1, k + 1);
      }
    }
  }

  lemma BitRunNone(s: BitRx)
    ensures BitRun(s, []) == (s, [])
  {
  }

  lemma StuffNone(data: byte, ones: nat)
    ensures Stuff(data, 0, ones) == Tx([], ones)
  {
  }

  lemma SyncedBound(last8: byte, k: nat)
    requires Synced(last8, k)
    ensures k <= 4
  {
  }
}
