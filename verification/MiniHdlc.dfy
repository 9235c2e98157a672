/** The sender and receiver object of the framed link, updated in place as the source does. */
module MiniHdlc {
  import opened Crc
  import opened Hdlc
  import opened HdlcReception
  import opened HdlcBits
  import CrcDetection

  /** The running check sequence lags two bytes behind the buffer. */
  function LaggedCrc(buffer: seq<byte>): bv16 {
    if |buffer| < 2 then INIT_VAL else CheckSequence(buffer[..|buffer| - 2])
  }

  function CrcErrors(events: seq<Event>): nat {
    if events == [] then 0 else
    CrcErrors(events[..|events| - 1]) + if events[|events| - 1].BadCrc? then 1 else 0
  }

  /** How often the buffer has filled up and been thrown away. */
  function Discards(heard: seq<byte>): nat {
    if heard == [] then 0 else
    var before := heard[..|heard| - 1];
    var full := heard[|heard| - 1] != FLAG && |Buffer(before)| + 1 == MAX_FRAME && Buffer(heard) == [];
    Discards(before) + if full then 1 else 0
  }

  lemma CrcErrorsAppend(events: seq<Event>, e: Event)
    ensures CrcErrors(events + [e]) == CrcErrors(events) + if e.BadCrc? then 1 else 0
  {
    assert (events + [e])[..|events + [e]| - 1] == events;
  }

  lemma DiscardsAppend(h: seq<byte>, b: byte)
    ensures Discards(h + [b]) ==
      Discards(h) + if b != FLAG && |Buffer(h)| + 1 == MAX_FRAME && Buffer(h + [b]) == [] then 1 else 0
  {
    assert (h + [b])[..|h + [b]| - 1] == h;
  }

  /** A data byte either waits as an escape or adds one byte to the buffer. */
  lemma HearDataEffect(h: seq<byte>, b: byte)
    requires b != FLAG
    ensures var u := Unescape(Segment(h));
      if !u.pending && b == ESC then Unescape(Segment(h + [b])).pending && Buffer(h + [b]) == Buffer(h)
      else
        var c := if u.pending then b ^ INVERT else b;
        && !Unescape(Segment(h + [b])).pending
        && Buffer(h + [b]) == if |Buffer(h)| + 1 == MAX_FRAME then [] else Buffer(h) + [c]
  {
    hide Segment, Held;
    HearData(h, b, true);
    UnescapeStep(Segment(h), b);
    var u := Unescape(Segment(h));
    HeldGrows(u.data, if u.pending then b ^ INVERT else b);
  }

  lemma LaggedGrows(buffer: seq<byte>, c: byte)
    ensures LaggedCrc(buffer + [c]) ==
      if |buffer| >= 2 then Update(LaggedCrc(buffer), buffer[|buffer| - 2]) else INIT_VAL
    ensures |buffer| < 2 ==> LaggedCrc(buffer) == INIT_VAL
  {
    hide Update;
    var n := |buffer|;
    if n >= 2 {
      var held := (buffer + [c])[..n - 1];
      assert held[..n - 2] == buffer[..n - 2] && held[n - 2] == buffer[n - 2];
    } else if n == 1 {
      assert (buffer + [c])[..0] == [];
    }
  }

  function Word(lo: byte, hi: byte): bv16 {
    (lo as bv16) | ((hi as bv16) << 8)
  }

  lemma WordParts(lo: byte, hi: byte, w: bv16)
    ensures CrcDetection.BigEndian(Word(lo, hi)) == [hi, lo]
    ensures Word(CrcDetection.BigEndian(w)[1], CrcDetection.BigEndian(w)[0]) == w
  {
    Joined(hi, lo);
    Split(w);
  }

  lemma Joined(hi: byte, lo: byte)
    ensures CrcDetection.BigEndian(Word(lo, hi)) == [hi, lo]
  {
  }

  lemma Split(w: bv16)
    ensures Word(CrcDetection.BigEndian(w)[1], CrcDetection.BigEndian(w)[0]) == w
  {
  }

  /** Comparing the received word with the register is comparing the bytes in sending order. */
  lemma RxCrcMatches(b0: byte, b1: byte, crc: bv16, bigEndian: bool)
    ensures (if bigEndian then Word(b1, b0) else Word(b0, b1)) == crc <==> [b0, b1] == FcsBytes(crc, bigEndian)
  {
    hide Word, CrcDetection.BigEndian;
    WordParts(b1, b0, crc);
    WordParts(b0, b1, crc);
    var be := CrcDetection.BigEndian(crc);
    assert be == [be[0], be[1]];
  }

  /** The verdict of the receiver, which compares its lagging register with the last two bytes held. */
  lemma VerdictIsAcceptance(buffer: seq<byte>, bigEndian: bool)
    requires |buffer| >= 2
    ensures var b0, b1 := buffer[|buffer| - 2], buffer[|buffer| - 1];
      (if bigEndian then Word(b1, b0) else Word(b0, b1)) == LaggedCrc(buffer) <==> Accepted(buffer, bigEndian)
  {
    hide Word, FcsBytes, CheckSequence;
    var b0, b1 := buffer[|buffer| - 2], buffer[|buffer| - 1];
    RxCrcMatches(b0, b1, LaggedCrc(buffer), bigEndian);
    assert buffer[|buffer| - 2..] == [b0, b1];
  }

  // ---- What a frame becomes on the line ----

  function SentFrame(payload: seq<byte>, bigEndian: bool, bitwise: bool, ones: nat): Tx {
    if bitwise then EncodeBits(payload, bigEndian, ones) else Tx(Encode(payload, bigEndian), ones)
  }

  function SentByte(ch: byte, bitwise: bool, ones: nat): Tx {
    if bitwise then Stuff(ch, 8, ones) else Tx([ch], ones)
  }

  function SentBytes(s: seq<byte>, bitwise: bool, ones: nat): Tx {
    if bitwise then StuffAll(s, ones) else Tx(s, ones)
  }

  lemma SentBytesAppend(s: seq<byte>, ch: byte, bitwise: bool, ones: nat)
    ensures var t := SentBytes(s, bitwise, ones); var u := SentByte(ch, bitwise, t.ones);
      SentBytes(s + [ch], bitwise, ones) == Tx(t.out + u.out, u.ones)
  {
    hide Stuff;
    assert (s + [ch])[..|s + [ch]| - 1] == s;
  }

  lemma SentBytesNone(bitwise: bool, ones: nat)
    ensures SentBytes([], bitwise, ones) == Tx([], ones)
  {
  }

  lemma {:induction false} SentBytesConcat(a: seq<byte>, b: seq<byte>, bitwise: bool, ones: nat)
    ensures var t := SentBytes(a, bitwise, ones); var u := SentBytes(b, bitwise, t.ones);
      SentBytes(a + b, bitwise, ones) == Tx(t.out + u.out, u.ones)
  {
    hide SentBytes, SentByte;
    var t := SentBytes(a, bitwise, ones);
    if b == [] {
      assert a + b == a;
      SentBytesNone(bitwise, t.ones);
      assert t.out + [] == t.out;
    } else {
      var n := |b| - 1;
      SentBytesConcat(a, b[..n], bitwise, ones);
      var u := SentBytes(b[..n], bitwise, t.ones);
      SentBytesAppend(a + b[..n], b[n], bitwise, ones);
      SentBytesAppend(b[..n], b[n], bitwise, t.ones);
      assert a + b == (a + b[..n]) + [b[n]] && b == b[..n] + [b[n]];
      var v := SentByte(b[n], bitwise, u.ones);
      assert (t.out + u.out) + v.out == t.out + (u.out + v.out);
    }
  }

  lemma EscapeCases(c: byte)
    ensures Escape(c) == if c == ESC || c == FLAG then [ESC] + [c ^ INVERT] else [c]
  {
  }

  lemma PlainNone(data: byte)
    ensures Plain(data, 0) == []
  {
  }

  lemma Regroup(a: seq<byte>, b: seq<byte>, c: seq<byte>, d: seq<byte>)
    ensures a + (b + (c + d)) == a + b + c + d
    ensures c == [] ==> a + b + c + d == a + b + d
  {
  }

  lemma Enclosed(a: seq<byte>, flag: seq<byte>, b: seq<byte>)
    ensures ((a + flag) + b) + flag == a + (flag + b + flag)
  {
  }

  // The lowest bit of a byte and what a right shift leaves.
  function Low(d: byte): byte { d & 1 }

  function Half(d: byte): byte { d >> 1 }

  lemma PlainOne(data: byte, n: nat)
    requires n > 0
    ensures Plain(data, n) == [Low(data)] + Plain(Half(data), n - 1)
  {
  }

  lemma StuffOne(data: byte, n: nat, ones: nat)
    requires n > 0
    ensures var fifth := Low(data) != 0 && ones + 1 == 5;
      var rest := Stuff(Half(data), n - 1, if Low(data) == 0 || fifth then 0 else ones + 1);
      Stuff(data, n, ones) == Tx([Low(data)] + ((if fifth then [0] else []) + rest.out), rest.ones)
  {
    hide Stuff;
    LowBit(data);
    StuffStep(data, n, ones);
  }

  function LowByte(w: bv16): byte { (w & 0xFF) as byte }

  function HighByte(w: bv16): byte { ((w >> 8) & 0xFF) as byte }

  lemma FcsParts(fcs: bv16)
    ensures FcsBytes(fcs, true) == [HighByte(fcs), LowByte(fcs)]
    ensures FcsBytes(fcs, false) == [LowByte(fcs), HighByte(fcs)]
  {
  }

  lemma EscapeBody(payload: seq<byte>, fcs1: byte, fcs2: byte, bigEndian: bool)
    requires [fcs1, fcs2] == FcsBytes(CheckSequence(payload), bigEndian)
    ensures EscapeAll(Body(payload, bigEndian)) == EscapeAll(payload) + Escape(fcs1) + Escape(fcs2)
  {
    hide Escape, CheckSequence, FcsBytes;
    var b := Body(payload, bigEndian);
    var n := |payload|;
    assert b[..n + 1] == payload + [fcs1] && b[..n + 1][..n] == payload && b[n + 1] == fcs2;
  }

  lemma FrameParts(payload: seq<byte>, bigEndian: bool, bitwise: bool, ones: nat)
    ensures var flag := if bitwise then Plain(FLAG, 8) else [FLAG];
      var t := SentBytes(EscapeAll(Body(payload, bigEndian)), bitwise, ones);
      SentFrame(payload, bigEndian, bitwise, ones) == Tx(flag + t.out + flag, t.ones)
  {
    hide EscapeAll, Body, Plain, StuffAll;
  }

  lemma FrameStart(frame: seq<byte>)
    ensures EscapeAll(frame[..0]) == [] && CheckSequence(frame[..0]) == INIT_VAL
  {
  }

  lemma FrameStep(frame: seq<byte>, i: nat)
    requires i < |frame|
    ensures EscapeAll(frame[..i + 1]) == EscapeAll(frame[..i]) + Escape(frame[i])
    ensures CheckSequence(frame[..i + 1]) == Update(CheckSequence(frame[..i]), frame[i])
  {
    hide Escape, Update;
    assert frame[..i + 1][..i] == frame[..i];
  }

  lemma BitStepCases(s: BitRx, bit: byte)
    ensures var last8, acc, r := ShiftIn(s.last8, bit), ShiftIn(s.acc, bit), BitStep(s, bit);
      if last8 == FLAG then r == (BitRx(last8, 0, 0), [FLAG])
      else if last8 & 0xFC == 0x7C then r == (BitRx(last8, s.acc, s.count), [])
      else if s.count + 1 == 8 then r == (BitRx(last8, 0, 0), [acc])
      else r == (BitRx(last8, acc, s.count + 1), [])
  {
    hide ShiftIn;
  }

  class MiniHdlc {
    const bigEndianCRC: bool
    const bitwiseHDLC: bool
    const rxBuffer: array<byte>
    var framePos: int
    var frameCRC: bv16
    var inEscapeSeq: bool
    var bitwiseLast8Bits: byte
    var bitwiseByte: byte
    var bitwiseBitCount: int
    var bitwiseSendOnesCount: int
    var rxFrameCount: int
    var frameCRCErrCount: int
    var frameTooLongCount: int
    // What the two callbacks have been given so far.
    var sent: seq<byte>
    var received: seq<seq<byte>>
    // Every byte the byte receiver has been given.
    ghost var heard: seq<byte>

    ghost predicate Valid()
      reads this, rxBuffer
    {
      && ReceiverValid()
      && 0 <= bitwiseBitCount < 8
      && 0 <= bitwiseSendOnesCount <= 4
    }

    /** The receive state is a function of the bytes heard, whatever they were. */
    ghost predicate ReceiverValid()
      reads `framePos, `frameCRC, `inEscapeSeq, `rxFrameCount, `frameCRCErrCount, `frameTooLongCount
      reads `received, `heard, rxBuffer
    {
      && rxBuffer.Length == MAX_FRAME + 1
      && 0 <= framePos < MAX_FRAME
      && rxBuffer[..framePos] == Buffer(heard)
      && frameCRC == LaggedCrc(Buffer(heard))
      && inEscapeSeq == Unescape(Segment(heard)).pending
      && received == Delivered(heard, bigEndianCRC)
      && rxFrameCount == |Events(heard, bigEndianCRC)|
      && frameCRCErrCount == CrcErrors(Events(heard, bigEndianCRC))
      && frameTooLongCount == Discards(heard)
    }

    ghost function BitState(): BitRx
      reads `bitwiseLast8Bits, `bitwiseByte, `bitwiseBitCount
      requires 0 <= bitwiseBitCount
    {
      BitRx(bitwiseLast8Bits, bitwiseByte, bitwiseBitCount)
    }

    lemma ValidIsReceiverValid()
      requires Valid()
      ensures ReceiverValid()
    {
    }

    lemma LogIsDelivered()
      requires ReceiverValid()
      ensures received == Delivered(heard, bigEndianCRC)
      ensures frameCRCErrCount == CrcErrors(Events(heard, bigEndianCRC))
    {
    }

    constructor (bigEndianCRC: bool, bitwiseHDLC: bool)
      ensures Valid() && fresh(rxBuffer)
      ensures this.bigEndianCRC == bigEndianCRC && this.bitwiseHDLC == bitwiseHDLC
      ensures heard == [] && sent == [] && received == [] && BitState() == START && bitwiseSendOnesCount == 0
    {
      this.bigEndianCRC := bigEndianCRC;
      this.bitwiseHDLC := bitwiseHDLC;
      rxBuffer := new byte[MAX_FRAME + 1];
      framePos := 0;
      frameCRC := INIT_VAL;
      inEscapeSeq := false;
      bitwiseLast8Bits, bitwiseByte, bitwiseBitCount, bitwiseSendOnesCount := 0, 0, 0, 0;
      rxFrameCount, frameCRCErrCount, frameTooLongCount := 0, 0, 0;
      sent, received, heard := [], [], [];
      new;
      hide *;
      StartState();
    }

    /** A state in which nothing has been heard. */
    lemma StartState()
      requires rxBuffer.Length == MAX_FRAME + 1 && heard == [] && received == []
      requires framePos == 0 && frameCRC == INIT_VAL && !inEscapeSeq
      requires rxFrameCount == 0 && frameCRCErrCount == 0 && frameTooLongCount == 0
      requires bitwiseLast8Bits == 0 && bitwiseByte == 0 && bitwiseBitCount == 0 && bitwiseSendOnesCount == 0
      ensures Valid() && BitState() == START
    {
      hide Events, Segment, Unescape, Buffer, LaggedCrc, Delivered, CrcErrors, Discards;
      NothingYet(bigEndianCRC);
      assert rxBuffer[..framePos] == [];
    }

    /** One byte in. The frame callback sees the payload with a terminating zero behind it. */
    method HandleChar(c: byte)
      requires ReceiverValid()
      modifies rxBuffer, `framePos, `frameCRC, `inEscapeSeq, `received, `heard
      modifies `rxFrameCount, `frameCRCErrCount, `frameTooLongCount
      ensures ReceiverValid() && heard == old(heard) + [c]
      ensures received == old(received)
        || (|received| == |old(received)| + 1 && received[..|old(received)|] == old(received))
      ensures |received| > |old(received)| ==>
        var p := received[|received| - 1]; |p| < rxBuffer.Length && rxBuffer[..|p| + 1] == p + [0]
    {
      hide ReceiverValid;
      if c == FLAG {
        HandleBoundary();
      } else {
        HandleData(c);
      }
    }

    /** The boundary branch of the byte handler. */
    method HandleBoundary()
      requires ReceiverValid()
      modifies rxBuffer, `framePos, `frameCRC, `inEscapeSeq, `rxFrameCount, `frameCRCErrCount, `received, `heard
      ensures ReceiverValid() && heard == old(heard) + [FLAG]
      ensures received == old(received)
        || (|received| == |old(received)| + 1 && received[..|old(received)|] == old(received))
      ensures |received| > |old(received)| ==>
        var p := received[|received| - 1]; |p| < rxBuffer.Length && rxBuffer[..|p| + 1] == p + [0]
    {
      hide Events, Segment, Unescape, Buffer, Accepted, LaggedCrc, Payloads, Word, CheckSequence, FcsBytes;
      hide CrcErrors, Discards, Delivered;
      ghost var buffer := Buffer(heard);
      BoundaryEffect(heard, bigEndianCRC);
      heard := heard + [FLAG];
      if framePos >= 2 {
        assert rxBuffer[framePos - 2] == buffer[framePos - 2] && rxBuffer[framePos - 1] == buffer[framePos - 1];
        VerdictIsAcceptance(buffer, bigEndianCRC);
        var rxcrc := Word(rxBuffer[framePos - 2], rxBuffer[framePos - 1]);
        if bigEndianCRC {
          rxcrc := Word(rxBuffer[framePos - 1], rxBuffer[framePos - 2]);
        }
        if rxcrc == frameCRC {
          rxBuffer[framePos - 2] := 0;
          var payload := rxBuffer[..framePos - 2];
          assert payload == buffer[..|buffer| - 2] && rxBuffer[..|payload| + 1] == payload + [0];
          received := received + [payload];
        } else {
          frameCRCErrCount := frameCRCErrCount + 1;
        }
      }
      inEscapeSeq := false;
      framePos := 0;
      frameCRC := INIT_VAL;
      rxFrameCount := rxFrameCount + 1;
      assert rxBuffer[..framePos] == [];
    }

    /** The rest of the byte handler: undo escapes, then store. */
    method HandleData(c: byte)
      requires ReceiverValid() && c != FLAG
      modifies rxBuffer, `framePos, `frameCRC, `inEscapeSeq, `frameTooLongCount, `heard
      ensures ReceiverValid() && heard == old(heard) + [c]
    {
      hide Events, Segment, Unescape, Buffer, LaggedCrc, Payloads, Update, CrcErrors, Discards, Delivered;
      hide DataByte, Waits;
      var ch := c;
      ghost var buffer := Buffer(heard);
      DataEffect(heard, c, bigEndianCRC);
      heard := heard + [c];
      if inEscapeSeq {
        inEscapeSeq := false;
        ch := ch ^ INVERT;
      } else if ch == ESC {
        inEscapeSeq := true;
        return;
      }
      Store(ch, buffer);
    }

    /** Append a byte to the buffer and advance the lagging register; a full buffer is thrown away. */
    method Store(ch: byte, ghost buffer: seq<byte>)
      requires rxBuffer.Length == MAX_FRAME + 1 && 0 <= framePos < MAX_FRAME
      requires rxBuffer[..framePos] == buffer && frameCRC == LaggedCrc(buffer)
      modifies rxBuffer, `framePos, `frameCRC, `frameTooLongCount
      ensures |buffer| + 1 < MAX_FRAME ==>
        framePos == |buffer| + 1 && rxBuffer[..framePos] == buffer + [ch]
        && frameCRC == LaggedCrc(buffer + [ch]) && frameTooLongCount == old(frameTooLongCount)
      ensures |buffer| + 1 == MAX_FRAME ==>
        framePos == 0 && frameCRC == INIT_VAL && frameTooLongCount == old(frameTooLongCount) + 1
    {
      hide LaggedCrc, Update;
      LaggedGrows(buffer, ch);
      rxBuffer[framePos] := ch;
      assert rxBuffer[..framePos + 1] == buffer + [ch];
      if framePos >= 2 {
        assert rxBuffer[framePos - 2] == buffer[framePos - 2];
        frameCRC := Update(frameCRC, rxBuffer[framePos - 2]);
      }
      framePos := framePos + 1;
      if framePos == MAX_FRAME {
        framePos := 0;
        frameCRC := INIT_VAL;
        frameTooLongCount := frameTooLongCount + 1;
      }
    }

    /** Bytes in, one at a time: the state reached depends only on the bytes, not on how they are cut. */
    method HandleBuffer(buf: seq<byte>)
      requires ReceiverValid()
      modifies rxBuffer, `framePos, `frameCRC, `inEscapeSeq, `received, `heard
      modifies `rxFrameCount, `frameCRCErrCount, `frameTooLongCount
      ensures ReceiverValid() && heard == old(heard) + buf
    {
      hide ReceiverValid;
      for i := 0 to |buf|
        invariant ReceiverValid() && heard == old(heard) + buf[..i]
      {
        HandleChar(buf[i]);
        assert buf[..i + 1] == buf[..i] + [buf[i]];
      }
      assert buf[..|buf|] == buf;
    }

    /** One bit in. */
    method HandleBit(bit: byte)
      requires Valid()
      modifies this, rxBuffer
      ensures Valid() && sent == old(sent) && bitwiseSendOnesCount == old(bitwiseSendOnesCount)
      ensures BitState() == BitStep(old(BitState()), bit).0
      ensures heard == old(heard) + BitStep(old(BitState()), bit).1
    {
      hide ReceiverValid, BitStep, TakeBit, ShiftIn;
      ghost var s := BitState();
      BitStepCases(s, bit);
      bitwiseLast8Bits := ShiftIn(bitwiseLast8Bits, bit);
      if bitwiseLast8Bits == FLAG {
        HandleChar(FLAG);
        bitwiseByte := 0;
        bitwiseBitCount := 0;
        return;
      }
      if bitwiseLast8Bits & 0xFC == 0x7C {
        return;
      }
      bitwiseByte := ShiftIn(bitwiseByte, bit);
      bitwiseBitCount := bitwiseBitCount + 1;
      if bitwiseBitCount == 8 {
        HandleChar(bitwiseByte);
        bitwiseByte := 0;
        bitwiseBitCount := 0;
      }
    }

    /** A byte out with no stuffing: the flags. */
    method SendChar(ch: byte)
      modifies `sent
      ensures sent == old(sent) + if bitwiseHDLC then Plain(ch, 8) else [ch]
    {
      hide Plain, Low, Half;
      if bitwiseHDLC {
        var bitData := ch;
        ghost var out: seq<byte> := [];
        for i := 0 to 8
          invariant sent == old(sent) + out && Plain(ch, 8) == out + Plain(bitData, 8 - i)
        {
          PlainOne(bitData, 8 - i);
          sent := sent + [Low(bitData)];
          out := out + [Low(bitData)];
          bitData := Half(bitData);
        }
        PlainNone(bitData);
      } else {
        sent := sent + [ch];
      }
    }

    /** A byte out, in bits with a zero after every fifth one. */
    method SendCharWithStuffing(ch: byte)
      requires 0 <= bitwiseSendOnesCount <= 4
      modifies `sent, `bitwiseSendOnesCount
      ensures 0 <= bitwiseSendOnesCount <= 4
      ensures var t := SentByte(ch, bitwiseHDLC, old(bitwiseSendOnesCount));
        sent == old(sent) + t.out && bitwiseSendOnesCount == t.ones
    {
      hide Stuff, Low, Half;
      if bitwiseHDLC {
        var bitData := ch;
        ghost var all := Stuff(ch, 8, bitwiseSendOnesCount);
        for i := 0 to 8
          invariant 0 <= bitwiseSendOnesCount <= 4
          invariant var t := Stuff(bitData, 8 - i, bitwiseSendOnesCount);
            sent + t.out == old(sent) + all.out && t.ones == all.ones
        {
          var bit := Low(bitData);
          StuffOne(bitData, 8 - i, bitwiseSendOnesCount);
          ghost var before, ones := sent, bitwiseSendOnesCount;
          sent := sent + [bit];
          if bit != 0 {
            bitwiseSendOnesCount := bitwiseSendOnesCount + 1;
            if bitwiseSendOnesCount == 5 {
              sent := sent + [0];
              bitwiseSendOnesCount := 0;
            }
          } else {
            bitwiseSendOnesCount := 0;
          }
          bitData := Half(bitData);
          ghost var rest := Stuff(bitData, 7 - i, bitwiseSendOnesCount).out;
          Regroup(before, [bit], if bit != 0 && ones + 1 == 5 then [0] else [], rest);
        }
        StuffNone(bitData, bitwiseSendOnesCount);
      } else {
        SendChar(ch);
      }
    }

    method SendEscaped(c: byte)
      requires 0 <= bitwiseSendOnesCount <= 4
      modifies `sent, `bitwiseSendOnesCount
      ensures 0 <= bitwiseSendOnesCount <= 4
      ensures var t := SentBytes(Escape(c), bitwiseHDLC, old(bitwiseSendOnesCount));
        sent == old(sent) + t.out && bitwiseSendOnesCount == t.ones
    {
      hide SentByte, SentBytes, Escape;
      var ch := c;
      ghost var ones := bitwiseSendOnesCount;
      EscapeCases(c);
      SentBytesNone(bitwiseHDLC, ones);
      if ch == ESC || ch == FLAG {
        SentBytesAppend([], ESC, bitwiseHDLC, ones);
        SendCharWithStuffing(ESC);
        ch := ch ^ INVERT;
        SentBytesAppend([ESC], ch, bitwiseHDLC, ones);
        assert [ESC] + [ch] == Escape(c) && [] + [ESC] == [ESC];
      } else {
        SentBytesAppend([], ch, bitwiseHDLC, ones);
        assert [] + [ch] == Escape(c);
      }
      SendCharWithStuffing(ch);
    }

    /** A whole frame out. */
    method SendFrame(frame: seq<byte>)
      requires 0 <= bitwiseSendOnesCount <= 4
      modifies `sent, `bitwiseSendOnesCount
      ensures 0 <= bitwiseSendOnesCount <= 4
      ensures var t := SentFrame(frame, bigEndianCRC, bitwiseHDLC, old(bitwiseSendOnesCount));
        sent == old(sent) + t.out && bitwiseSendOnesCount == t.ones
    {
      hide SentByte, SentBytes, Update, Plain, FcsBytes, Escape, StuffAll, EscapeAll, CheckSequence, Body, SentFrame;
      hide LowByte, HighByte;
      ghost var ones := bitwiseSendOnesCount;
      var fcs := INIT_VAL;
      SendChar(FLAG);
      ghost var start := sent;
      SentBytesNone(bitwiseHDLC, ones);
      FrameStart(frame);
      for i := 0 to |frame|
        invariant fcs == CheckSequence(frame[..i])
        invariant 0 <= bitwiseSendOnesCount <= 4
        invariant var t := SentBytes(EscapeAll(frame[..i]), bitwiseHDLC, ones);
          sent == start + t.out && bitwiseSendOnesCount == t.ones
      {
        var data := frame[i];
        FrameStep(frame, i);
        fcs := Update(fcs, data);
        SendEscaped(data);
        SentBytesConcat(EscapeAll(frame[..i]), Escape(data), bitwiseHDLC, ones);
      }
      assert frame[..|frame|] == frame;
      var fcs1 := LowByte(fcs);
      var fcs2 := HighByte(fcs);
      if bigEndianCRC {
        fcs1 := HighByte(fcs);
        fcs2 := LowByte(fcs);
      }
      FcsParts(fcs);
      assert [fcs1, fcs2] == FcsBytes(fcs, bigEndianCRC);
      ghost var t1 := SentBytes(EscapeAll(frame) + Escape(fcs1), bitwiseHDLC, ones);
      ghost var t2 := SentBytes(EscapeAll(frame) + Escape(fcs1) + Escape(fcs2), bitwiseHDLC, ones);
      SentBytesConcat(EscapeAll(frame), Escape(fcs1), bitwiseHDLC, ones);
      SendEscaped(fcs1);
      assert sent == start + t1.out && bitwiseSendOnesCount == t1.ones;
      SentBytesConcat(EscapeAll(frame) + Escape(fcs1), Escape(fcs2), bitwiseHDLC, ones);
      SendEscaped(fcs2);
      assert sent == start + t2.out && bitwiseSendOnesCount == t2.ones;
      EscapeBody(frame, fcs1, fcs2, bigEndianCRC);
      SendChar(FLAG);
      Enclosed(old(sent), if bitwiseHDLC then Plain(FLAG, 8) else [FLAG], t2.out);
      FrameParts(frame, bigEndianCRC, bitwiseHDLC, ones);
    }
  }

  /** This data byte only announces an escape. */
  predicate Waits(h: seq<byte>, c: byte) {
    !Unescape(Segment(h)).pending && c == ESC
  }

  /** The byte that goes into the buffer. */
  function DataByte(h: seq<byte>, c: byte): byte {
    if Unescape(Segment(h)).pending then c ^ INVERT else c
  }

  lemma DataEffect(h: seq<byte>, c: byte, bigEndian: bool)
    requires c != FLAG
    ensures Waits(h, c) == (!Unescape(Segment(h)).pending && c == ESC)
    ensures DataByte(h, c) == if Unescape(Segment(h)).pending then c ^ INVERT else c
    ensures Unescape(Segment(h + [c])).pending == Waits(h, c)
    ensures var b := Buffer(h); var full := b + [DataByte(h, c)];
      && Buffer(h + [c]) == (if Waits(h, c) then b else if |b| + 1 == MAX_FRAME then [] else full)
      && Discards(h + [c]) == Discards(h) + (if !Waits(h, c) && |b| + 1 == MAX_FRAME then 1 else 0)
    ensures LaggedCrc([]) == INIT_VAL
    ensures Delivered(h + [c], bigEndian) == Delivered(h, bigEndian)
    ensures Events(h + [c], bigEndian) == Events(h, bigEndian)
  {
    hide Events, Segment, Unescape, Buffer, Payloads, Update, Discards, LaggedCrc;
    DiscardsAppend(h, c);
    HearDataEffect(h, c);
    HearData(h, c, bigEndian);
    SegmentStart();
    assert |Buffer(h)| + 1 == MAX_FRAME ==> Buffer(h) != [];
  }

  lemma BoundaryEffect(h: seq<byte>, bigEndian: bool)
    ensures Buffer(h + [FLAG]) == [] && !Unescape(Segment(h + [FLAG])).pending && LaggedCrc([]) == INIT_VAL
    ensures Discards(h + [FLAG]) == Discards(h)
    ensures |Events(h + [FLAG], bigEndian)| == |Events(h, bigEndian)| + 1
    ensures var b := Buffer(h);
      && CrcErrors(Events(h + [FLAG], bigEndian)) ==
           CrcErrors(Events(h, bigEndian)) + (if |b| >= 2 && !Accepted(b, bigEndian) then 1 else 0)
      && Delivered(h + [FLAG], bigEndian) ==
           Delivered(h, bigEndian) + (if |b| >= 2 && Accepted(b, bigEndian) then [b[..|b| - 2]] else [])
  {
    hide Events, Segment, Buffer, Payloads, CrcErrors, Discards, Unescape, LaggedCrc, CheckSequence, FcsBytes;
    HearFlag(h, bigEndian);
    DiscardsAppend(h, FLAG);
    CrcErrorsAppend(Events(h, bigEndian), Close(Buffer(h), bigEndian));
    PayloadsAppend(Events(h, bigEndian), Close(Buffer(h), bigEndian));
    SegmentStart();
  }

  lemma NothingYet(bigEndian: bool)
    ensures Buffer([]) == [] && !Unescape(Segment([])).pending && LaggedCrc([]) == INIT_VAL
    ensures Events([], bigEndian) == [] && Delivered([], bigEndian) == [] && CrcErrors([]) == 0 && Discards([]) == 0
  {
  }

  lemma SegmentStart()
    ensures Unescape([]) == Unescaped([], false) && LaggedCrc([]) == INIT_VAL
  {
  }

  // ---- The statistics ----

  /** How many bytes of value 0x7E there are. */
  function Flags(heard: seq<byte>): nat {
    if heard == [] then 0 else Flags(heard[..|heard| - 1]) + if heard[|heard| - 1] == 0x7E then 1 else 0
  }

  /** Every flag heard is counted as a frame. */
  lemma {:induction false} FlagsCounted(heard: seq<byte>, bigEndian: bool)
    ensures |Events(heard, bigEndian)| == Flags(heard)
  {
    hide Close, Buffer;
    if heard != [] {
      FlagsCounted(heard[..|heard| - 1], bigEndian);
    }
  }

  lemma OneMoreByte(n: nat)
    ensures (n + 1) / 100000 == n / 100000 + if n % 100000 + 1 == 100000 then 1 else 0
  {
  }

  /** One more data byte in the segment, escaped or not. */
  lemma DiscardByte(h: seq<byte>, data: seq<byte>, b: byte)
    requires !Unescape(Segment(h)).pending && Buffer(h) == Held(data)
    ensures !Unescape(Segment(h + Escape(b))).pending && Buffer(h + Escape(b)) == Held(data + [b])
    ensures Discards(h + Escape(b)) == Discards(h) + if |data| % 100000 + 1 == 100000 then 1 else 0
  {
    hide Segment, Unescape, Buffer, Discards, Held, Escape;
    EscapeShape(b);
    EscapeCases(b);
    HeldGrows(data, b);
    if Escape(b) == [b] {
      HearDataEffect(h, b);
      DiscardsAppend(h, b);
    } else {
      HearDataEffect(h, ESC);
      DiscardsAppend(h, ESC);
      HearDataEffect(h + [ESC], b ^ INVERT);
      DiscardsAppend(h + [ESC], b ^ INVERT);
      assert h + Escape(b) == (h + [ESC]) + [b ^ INVERT];
    }
  }

  /** A segment of n data bytes throws away n / 100000 full buffers. */
  lemma {:induction false} DiscardsCounted(h: seq<byte>, body: seq<byte>)
    requires Segment(h) == []
    ensures var w := h + EscapeAll(body);
      Discards(w) == Discards(h) + |body| / 100000 && Buffer(w) == Held(body) && !Unescape(Segment(w)).pending
  {
    hide Segment, Unescape, Buffer, Discards, Held, Escape;
    if body == [] {
      assert h + [] == h;
      SegmentStart();
      NothingHeld(h);
    } else {
      var n := |body| - 1;
      DiscardsCounted(h, body[..n]);
      DiscardByte(h + EscapeAll(body[..n]), body[..n], body[n]);
      OneMoreByte(n);
      assert body == body[..n] + [body[n]];
      assert h + EscapeAll(body) == (h + EscapeAll(body[..n])) + Escape(body[n]);
    }
  }

  lemma NothingHeld(h: seq<byte>)
    requires Segment(h) == []
    ensures Buffer(h) == Held([])
  {
    hide Segment;
  }
}
