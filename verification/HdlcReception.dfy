/** What a receiver delivers: round trips, streams, resynchronisation, error detection. */
module HdlcReception {
  import opened Crc
  import CrcDetection
  import Division
  import PowersOfX
  import TwoBitErrors
  import opened Hdlc

  // ---- One byte ----

  lemma HearFlag(h: seq<byte>, bigEndian: bool)
    ensures Segment(h + [FLAG]) == []
    ensures Buffer(h + [FLAG]) == []
    ensures Events(h + [FLAG], bigEndian) == Events(h, bigEndian) + [Close(Buffer(h), bigEndian)]
  {
    hide Close, Accepted, Unescape;
    assert (h + [FLAG])[..|h + [FLAG]| - 1] == h;
    assert Unescape([]).data == [] by { EmptySegment(); }
  }

  lemma EmptySegment()
    ensures Unescape([]) == Unescaped([], false)
  {
  }

  lemma HearData(h: seq<byte>, b: byte, bigEndian: bool)
    requires b != FLAG
    ensures Segment(h + [b]) == Segment(h) + [b]
    ensures Events(h + [b], bigEndian) == Events(h, bigEndian)
  {
    hide Close, Buffer;
    assert (h + [b])[..|h + [b]| - 1] == h;
  }

  /** One more data byte in the buffer; the byte that fills it empties it. */
  lemma HeldGrows(data: seq<byte>, b: byte)
    ensures Held(data + [b]) == if |Held(data)| + 1 == MAX_FRAME then [] else Held(data) + [b]
  {
    var n, m := |data| % MAX_FRAME, |data + [b]| % MAX_FRAME;
    assert m == if n + 1 == MAX_FRAME then 0 else n + 1;
  }

  // ---- Several bytes ----

  lemma {:induction false} HearDataBytes(h: seq<byte>, w: seq<byte>, bigEndian: bool)
    requires FLAG !in w
    ensures Segment(h + w) == Segment(h) + w
    ensures Events(h + w, bigEndian) == Events(h, bigEndian)
  {
    hide Segment, Events;
    if w == [] {
      assert h + w == h;
    } else {
      var n := |w| - 1;
      HearDataBytes(h, w[..n], bigEndian);
      HearData(h + w[..n], w[n], bigEndian);
      assert h + w == (h + w[..n]) + [w[n]];
      assert w == w[..n] + [w[n]];
    }
  }

  lemma PayloadsAppend(events: seq<Event>, e: Event)
    ensures Payloads(events + [e]) == Payloads(events) + if e.Frame? then [e.payload] else []
  {
    assert (events + [e])[..|events + [e]| - 1] == events;
  }

  /** One more byte delivers at most one more frame. */
  lemma HearOne(h: seq<byte>, b: byte, bigEndian: bool)
    ensures Delivered(h, bigEndian) <= Delivered(h + [b], bigEndian)
    ensures |Delivered(h + [b], bigEndian)| <= |Delivered(h, bigEndian)| + 1
    ensures b != FLAG ==> Delivered(h + [b], bigEndian) == Delivered(h, bigEndian)
  {
    hide Events, Payloads, Close;
    if b == FLAG {
      HearFlag(h, bigEndian);
      PayloadsAppend(Events(h, bigEndian), Close(Buffer(h), bigEndian));
    } else {
      HearData(h, b, bigEndian);
    }
  }

  /** After a flag, any escaped bytes and a closing flag close exactly those bytes. */
  lemma HearFrame(h: seq<byte>, body: seq<byte>, bigEndian: bool)
    requires Segment(h) == []
    ensures Events(h + EscapeAll(body) + [FLAG], bigEndian) == Events(h, bigEndian) + [Close(Held(body), bigEndian)]
    ensures Segment(h + EscapeAll(body) + [FLAG]) == []
  {
    hide Segment, Events, Close, EscapeAll, Unescape;
    EscapedHasNoFlag(body);
    HearDataBytes(h, EscapeAll(body), bigEndian);
    HearFlag(h + EscapeAll(body), bigEndian);
    EmptySegment();
    UnescapeEscaped([], body);
    assert [] + EscapeAll(body) == EscapeAll(body) && [] + body == body;
  }

  lemma HeldAll(data: seq<byte>)
    requires |data| < MAX_FRAME
    ensures Held(data) == data
  {
  }

  lemma BodyAccepted(payload: seq<byte>, bigEndian: bool)
    ensures Accepted(Body(payload, bigEndian), bigEndian)
    ensures Close(Body(payload, bigEndian), bigEndian) == Frame(payload)
  {
    hide CheckSequence, FcsBytes;
    var b := Body(payload, bigEndian);
    assert b[..|b| - 2] == payload;
  }

  /** The frame, if any, that a flag delivers out of the buffer it closes. */
  function Flushed(buffer: seq<byte>, bigEndian: bool): (f: seq<seq<byte>>)
    ensures |f| <= 1
  {
    if Accepted(buffer, bigEndian) then [buffer[..|buffer| - 2]] else []
  }

  /** From any receiver state, one encoded frame closes what was pending and then delivers its payload. */
  lemma Resynchronises(h: seq<byte>, payload: seq<byte>, bigEndian: bool)
    requires |payload| + 2 < MAX_FRAME
    ensures Events(h + Encode(payload, bigEndian), bigEndian)
         == Events(h, bigEndian) + [Close(Buffer(h), bigEndian), Frame(payload)]
    ensures Delivered(h + Encode(payload, bigEndian), bigEndian)
         == Delivered(h, bigEndian) + Flushed(Buffer(h), bigEndian) + [payload]
    ensures Segment(h + Encode(payload, bigEndian)) == []
  {
    hide Segment, Events, EscapeAll, Accepted, Body, Payloads, Buffer;
    var body := Body(payload, bigEndian);
    HearFlag(h, bigEndian);
    HearFrame(h + [FLAG], body, bigEndian);
    HeldAll(body);
    BodyAccepted(payload, bigEndian);
    var e := Events(h, bigEndian);
    var c := Close(Buffer(h), bigEndian);
    assert h + Encode(payload, bigEndian) == (h + [FLAG]) + EscapeAll(body) + [FLAG];
    assert e + [c, Frame(payload)] == e + [c] + [Frame(payload)];
    PayloadsAppend(e, c);
    PayloadsAppend(e + [c], Frame(payload));
    CloseFrame(Buffer(h), bigEndian);
  }

  lemma CloseFrame(buffer: seq<byte>, bigEndian: bool)
    ensures Close(buffer, bigEndian).Frame? <==> Accepted(buffer, bigEndian)
    ensures Accepted(buffer, bigEndian) ==> Close(buffer, bigEndian) == Frame(buffer[..|buffer| - 2])
  {
    hide CheckSequence, FcsBytes;
  }

  // ---- Streams ----

  /** What a sender puts on the line: idle flags and frames, in any order. */
  datatype Item = Idle | Packet(payload: seq<byte>)

  function Wire(items: seq<Item>, bigEndian: bool): seq<byte> {
    if items == [] then [] else
    Wire(items[..|items| - 1], bigEndian) +
      match items[|items| - 1] { case Idle => [FLAG] case Packet(p) => Encode(p, bigEndian) }
  }

  function Sent(items: seq<Item>): seq<seq<byte>> {
    if items == [] then [] else
    Sent(items[..|items| - 1]) + match items[|items| - 1] { case Idle => [] case Packet(p) => [p] }
  }

  predicate Fits(items: seq<Item>) {
    forall i :: 0 <= i < |items| && items[i].Packet? ==> |items[i].payload| + 2 < MAX_FRAME
  }

  lemma NothingBuffered(h: seq<byte>, bigEndian: bool)
    requires Segment(h) == []
    ensures Close(Buffer(h), bigEndian) == Runt && Flushed(Buffer(h), bigEndian) == []
  {
    hide CheckSequence, FcsBytes;
    EmptySegment();
  }

  /** A stream ends with nothing pending. */
  lemma {:induction false} StreamCloses(h: seq<byte>, items: seq<Item>, bigEndian: bool)
    requires Segment(h) == []
    ensures Segment(h + Wire(items, bigEndian)) == []
  {
    hide Escape, FcsBytes, CheckSequence;
    if items == [] {
      assert h + [] == h;
    } else {
      var w := Wire(items, bigEndian);
      assert (h + w)[|h + w| - 1] == FLAG;
    }
  }

  /** A receiver with nothing pending delivers exactly the payloads of the stream, in order. */
  lemma {:induction false} StreamDelivers(h: seq<byte>, items: seq<Item>, bigEndian: bool)
    requires Segment(h) == [] && Fits(items)
    ensures Delivered(h + Wire(items, bigEndian), bigEndian) == Delivered(h, bigEndian) + Sent(items)
  {
    hide Segment, Events, Encode, Accepted, Payloads, Buffer, Close;
    if items == [] {
      assert h + [] == h;
    } else {
      var n := |items| - 1;
      var before := h + Wire(items[..n], bigEndian);
      StreamDelivers(h, items[..n], bigEndian);
      StreamCloses(h, items[..n], bigEndian);
      NothingBuffered(before, bigEndian);
      match items[n]
      case Idle =>
        HearFlag(before, bigEndian);
        PayloadsAppend(Events(before, bigEndian), Runt);
        assert h + Wire(items, bigEndian) == before + [FLAG];
      case Packet(p) =>
        Resynchronises(before, p, bigEndian);
        assert h + Wire(items, bigEndian) == before + Encode(p, bigEndian);
    }
  }

  lemma FreshStream(items: seq<Item>, bigEndian: bool)
    requires Fits(items)
    ensures Delivered(Wire(items, bigEndian), bigEndian) == Sent(items)
  {
    hide Wire, Sent;
    StreamDelivers([], items, bigEndian);
    assert [] + Wire(items, bigEndian) == Wire(items, bigEndian);
    assert Delivered([], bigEndian) + Sent(items) == Sent(items);
  }

  // ---- The length limit ----

  lemma CloseShortens(buffer: seq<byte>, bigEndian: bool, payload: seq<byte>)
    requires |buffer| < |payload| + 2
    ensures Close(buffer, bigEndian) != Frame(payload)
  {
    hide CheckSequence, FcsBytes;
  }

  /** A frame arrives exactly when payload and check sequence together stay below the limit. */
  lemma DeliveredIffFits(payload: seq<byte>, bigEndian: bool)
    ensures Delivered(Encode(payload, bigEndian), bigEndian) == [payload] <==> |payload| + 2 < 100000
  {
    hide Segment, EscapeAll, Accepted, Body, Payloads, Close;
    var body := Body(payload, bigEndian);
    var wire := Encode(payload, bigEndian);
    if |payload| + 2 < MAX_FRAME {
      var items := [Packet(payload)];
      assert items[..0] == [];
      assert Wire(items, bigEndian) == [] + wire == wire;
      assert Sent(items) == [] + [payload] == [payload];
      FreshStream(items, bigEndian);
    } else {
      HearFlag([], bigEndian);
      EmptySegment();
      assert Segment([]) == [] by { NothingHeard(); }
      NothingBuffered([], bigEndian);
      assert [] + [FLAG] == [FLAG];
      HearFrame([FLAG], body, bigEndian);
      assert wire == [FLAG] + EscapeAll(body) + [FLAG];
      CloseShortens(Held(body), bigEndian, payload);
      var e := Close(Held(body), bigEndian);
      assert Events(wire, bigEndian) == [] + [Runt] + [e];
      PayloadsAppend([], Runt);
      PayloadsAppend([] + [Runt], e);
      NoPayloads();
      if e.Frame? {
        assert Delivered(wire, bigEndian) == [e.payload];
        assert Delivered(wire, bigEndian)[0] != payload;
      } else {
        assert Delivered(wire, bigEndian) == [];
      }
    }
  }

  lemma NothingHeard()
    ensures Segment([]) == []
  {
  }

  lemma NoPayloads()
    ensures Payloads([]) == []
  {
  }

  lemma NothingDelivered(bigEndian: bool)
    ensures Delivered([], bigEndian) == []
  {
  }

  // ---- Errors on the line ----

  /** With the high byte sent first, a buffer is accepted exactly when its whole remainder is zero. */
  lemma AcceptedIffZeroRemainder(buffer: seq<byte>)
    ensures Accepted(buffer, true) <==> |buffer| >= 2 && CheckSequence(buffer) == 0
  {
    hide CrcFrom;
    if |buffer| >= 2 {
      var n := |buffer| - 2;
      CrcConcat(INIT_VAL, buffer[..n], buffer[n..]);
      CrcDetection.ZeroOnlyForOwnSequence(CheckSequence(buffer[..n]), buffer[n..]);
      assert buffer == buffer[..n] + buffer[n..];
    }
  }

  /** y is x with some bits changed, all of them within sixteen consecutive bits. */
  ghost predicate Burst(x: seq<byte>, y: seq<byte>) {
    && |x| == |y| && x != y
    && exists i: nat :: Within(x, y, i)
  }

  ghost predicate Within(x: seq<byte>, y: seq<byte>, i: nat)
    requires |x| == |y|
  {
    forall j :: 0 <= j < 8 * |x| && !(i <= j < i + 16) ==>
      CrcDetection.MessageBits(x)[j] == CrcDetection.MessageBits(y)[j]
  }

  /** y is x with an odd number of bits changed. */
  ghost predicate OddFlips(x: seq<byte>, y: seq<byte>) {
    && |x| == |y|
    && Division.Odd(Division.Plus(CrcDetection.MessageBits(x), CrcDetection.MessageBits(y)))
  }

  /** y is x with two bits changed that are not a multiple of 32767 bits apart. */
  ghost predicate TwoFlips(x: seq<byte>, y: seq<byte>) {
    exists i: nat, j: nat :: TwoBitErrors.FlippedAt(x, y, i, j) && (j - i) % PowersOfX.ORDER != 0
  }

  /** Damage the check sequence is made for. */
  ghost predicate Damage(x: seq<byte>, y: seq<byte>) {
    Burst(x, y) || OddFlips(x, y) || TwoFlips(x, y)
  }

  /** Two wrong bits in a frame of less than 4096 bytes always are. */
  lemma TwoFlipsInShortFrame(x: seq<byte>, y: seq<byte>, i: nat, j: nat)
    requires TwoBitErrors.FlippedAt(x, y, i, j) && |x| < 4096
    ensures TwoFlips(x, y)
  {
    hide CrcDetection.MessageBits;
    assert 0 < j - i < PowersOfX.ORDER;
    assert (j - i) % PowersOfX.ORDER != 0;
  }

  /** Exactly when they are a multiple of that distance apart, two wrong bits go unnoticed. */
  lemma TwoFlipsAcceptedIff(x: seq<byte>, y: seq<byte>, i: nat, j: nat)
    requires Accepted(x, true) && TwoBitErrors.FlippedAt(x, y, i, j)
    ensures Accepted(y, true) <==> (j - i) % PowersOfX.ORDER == 0
  {
    hide CrcDetection.MessageBits, CrcFrom, Accepted;
    AcceptedIffZeroRemainder(x);
    AcceptedIffZeroRemainder(y);
    TwoBitErrors.TwoFlipsChangeCrc(INIT_VAL, x, y, i, j);
  }

  lemma DamageChangesCrc(fcs: bv16, x: seq<byte>, y: seq<byte>)
    requires Damage(x, y)
    ensures |x| == |y| && CrcFrom(fcs, x) != CrcFrom(fcs, y)
  {
    hide CrcDetection.MessageBits, CrcFrom;
    if Burst(x, y) {
      var i: nat :| Within(x, y, i);
      if CrcDetection.MessageBits(x) == CrcDetection.MessageBits(y) {
        CrcDetection.MessageBitsInjective(x, y);
        assert false;
      }
      CrcDetection.BurstChangesCrc(fcs, x, y, i);
    } else if OddFlips(x, y) {
      CrcDetection.OddErrorsChangeCrc(fcs, x, y);
    } else {
      var i: nat, j: nat :| TwoBitErrors.FlippedAt(x, y, i, j) && (j - i) % PowersOfX.ORDER != 0;
      TwoBitErrors.TwoFlipsChangeCrc(fcs, x, y, i, j);
    }
  }

  /** No burst of up to sixteen bits, no odd number of bit errors and no two bit errors less than 32767
      bits apart, anywhere in payload or check sequence, turn an accepted frame into another. */
  lemma CorruptFrameRejected(x: seq<byte>, y: seq<byte>)
    requires Accepted(x, true) && Damage(x, y)
    ensures !Accepted(y, true)
  {
    hide CrcFrom, Accepted, Damage;
    AcceptedIffZeroRemainder(x);
    AcceptedIffZeroRemainder(y);
    DamageChangesCrc(INIT_VAL, x, y);
  }

  lemma SequencesDiffer(a: bv16, b: bv16)
    requires CrcDetection.BigEndian(a) == CrcDetection.BigEndian(b)
    ensures a == b
  {
    var s, t := CrcDetection.BigEndian(a), CrcDetection.BigEndian(b);
    assert s[0] == t[0] && s[1] == t[1];
  }

  /** Whichever byte of the check sequence goes first, damage of these kinds to the payload alone is
      never accepted. */
  lemma CorruptPayloadRejected(p: seq<byte>, q: seq<byte>, bigEndian: bool)
    requires Damage(p, q)
    ensures !Accepted(q + FcsBytes(CheckSequence(p), bigEndian), bigEndian)
  {
    hide CrcFrom, CrcDetection.BigEndian, Damage;
    var tail := FcsBytes(CheckSequence(p), bigEndian);
    var y := q + tail;
    assert y[..|y| - 2] == q && y[|y| - 2..] == tail;
    DamageChangesCrc(INIT_VAL, p, q);
    var a, b := CrcDetection.BigEndian(CheckSequence(p)), CrcDetection.BigEndian(CheckSequence(q));
    if a == b {
      SequencesDiffer(CheckSequence(p), CheckSequence(q));
      assert false;
    }
    assert a == [a[0], a[1]] && b == [b[0], b[1]];
  }

  /** A frame corrupted that way between two flags is counted as an error and never delivered. */
  lemma CorruptFrameNotDelivered(h: seq<byte>, payload: seq<byte>, y: seq<byte>)
    requires Segment(h) == [] && |payload| + 2 < MAX_FRAME
    requires Damage(Body(payload, true), y)
    ensures Events(h + EscapeAll(y) + [FLAG], true) == Events(h, true) + [BadCrc]
    ensures Delivered(h + EscapeAll(y) + [FLAG], true) == Delivered(h, true)
  {
    hide Segment, Events, EscapeAll, Accepted, Body, Payloads, Damage, CrcFrom;
    BodyAccepted(payload, true);
    DamageChangesCrc(INIT_VAL, Body(payload, true), y);
    CorruptFrameRejected(Body(payload, true), y);
    HearFrame(h, y, true);
    HeldAll(y);
    PayloadsAppend(Events(h, true), BadCrc);
  }

  /** Changing any one or two adjacent bytes of a frame is such a burst. */
  lemma TwoBytesAreABurst(before: seq<byte>, m: seq<byte>, m': seq<byte>, after: seq<byte>)
    requires |m| == |m'| <= 2 && m != m'
    ensures Burst(before + m + after, before + m' + after)
  {
    hide CrcDetection.MessageBits;
    var x, y := before + m + after, before + m' + after;
    assert x[|before|..|before| + |m|] == m && y[|before|..|before| + |m|] == m';
    CrcDetection.MessageBitsConcat(before + m, after);
    CrcDetection.MessageBitsConcat(before, m);
    CrcDetection.MessageBitsConcat(before + m', after);
    CrcDetection.MessageBitsConcat(before, m');
    assert Within(x, y, 8 * |before|);
  }

  // ---- Transparency ----

  /** An escape byte is always followed by one of the two escaped values. */
  ghost predicate EscapesPaired(w: seq<byte>) {
    forall i :: 0 <= i < |w| && w[i] == ESC ==> i + 1 < |w| && (w[i + 1] == 0x5D || w[i + 1] == 0x5E)
  }

  /** Between its flags a frame never holds a flag or an unpaired escape. */
  lemma {:induction false} EscapedIsTransparent(s: seq<byte>)
    ensures FLAG !in EscapeAll(s) && EscapesPaired(EscapeAll(s))
  {
    hide Escape;
    EscapedHasNoFlag(s);
    if s != [] {
      var n := |s| - 1;
      EscapedIsTransparent(s[..n]);
      EscapeShape(s[n]);
    }
  }
}
