/** The wire format of the framed serial link and the meaning of a received byte stream. */
module Hdlc {
  import opened Crc
  import CrcDetection

  const FLAG: byte := 0x7E
  const ESC: byte := 0x7D
  const INVERT: byte := 0x20
  const MAX_FRAME: nat := 100000

  // ---- Sending ----

  function Escape(b: byte): seq<byte> {
    if b == ESC || b == FLAG then [ESC, b ^ INVERT] else [b]
  }

  function EscapeAll(s: seq<byte>): seq<byte> {
    if s == [] then [] else EscapeAll(s[..|s| - 1]) + Escape(s[|s| - 1])
  }

  function FcsBytes(crc: bv16, bigEndian: bool): (s: seq<byte>)
    ensures |s| == 2
  {
    var be := CrcDetection.BigEndian(crc);
    if bigEndian then be else [be[1], be[0]]
  }

  /** A payload followed by its check sequence. */
  function Body(payload: seq<byte>, bigEndian: bool): (s: seq<byte>)
    ensures |s| == |payload| + 2
  {
    payload + FcsBytes(CheckSequence(payload), bigEndian)
  }

  function Encode(payload: seq<byte>, bigEndian: bool): seq<byte> {
    [FLAG] + EscapeAll(Body(payload, bigEndian)) + [FLAG]
  }

  // ---- Receiving: what a byte stream means ----

  /** The bytes heard since the last flag. */
  function Segment(heard: seq<byte>): (s: seq<byte>)
    ensures FLAG !in s
  {
    if heard == [] || heard[|heard| - 1] == FLAG then []
    else Segment(heard[..|heard| - 1]) + [heard[|heard| - 1]]
  }

  /** Data bytes with the escapes undone, and whether an escape still waits for its data byte. */
  datatype Unescaped = Unescaped(data: seq<byte>, pending: bool)

  function Unescape(s: seq<byte>): Unescaped {
    if s == [] then Unescaped([], false) else
    var u := Unescape(s[..|s| - 1]);
    var b := s[|s| - 1];
    if u.pending then Unescaped(u.data + [b ^ INVERT], false)
    else if b == ESC then Unescaped(u.data, true)
    else Unescaped(u.data + [b], false)
  }

  /** What the receive buffer keeps of the data: every full buffer is thrown away. */
  function Held(data: seq<byte>): (s: seq<byte>)
    ensures |s| == |data| % MAX_FRAME
  {
    data[|data| - |data| % MAX_FRAME..]
  }

  predicate Accepted(buffer: seq<byte>, bigEndian: bool) {
    |buffer| >= 2 && buffer[|buffer| - 2..] == FcsBytes(CheckSequence(buffer[..|buffer| - 2]), bigEndian)
  }

  /** What a flag does with the buffer it closes. */
  datatype Event = Frame(payload: seq<byte>) | BadCrc | Runt

  function Close(buffer: seq<byte>, bigEndian: bool): Event {
    if |buffer| < 2 then Runt
    else if Accepted(buffer, bigEndian) then Frame(buffer[..|buffer| - 2])
    else BadCrc
  }

  function Buffer(heard: seq<byte>): seq<byte> {
    Held(Unescape(Segment(heard)).data)
  }

  /** One event for every flag heard. */
  function Events(heard: seq<byte>, bigEndian: bool): seq<Event> {
    if heard == [] then [] else
    var before := heard[..|heard| - 1];
    if heard[|heard| - 1] == FLAG then Events(before, bigEndian) + [Close(Buffer(before), bigEndian)]
    else Events(before, bigEndian)
  }

  function Payloads(events: seq<Event>): seq<seq<byte>> {
    if events == [] then [] else
    Payloads(events[..|events| - 1]) +
      match events[|events| - 1] { case Frame(p) => [p] case BadCrc => [] case Runt => [] }
  }

  /** The frames a receiver hands over for the bytes it has heard. */
  function Delivered(heard: seq<byte>, bigEndian: bool): seq<seq<byte>> {
    Payloads(Events(heard, bigEndian))
  }

  // ---- Escaping ----

  lemma EscapeShape(b: byte)
    ensures || (Escape(b) == [b] && b != ESC && b != FLAG)
            || (Escape(b) == [ESC, b ^ INVERT] && (b ^ INVERT) ^ INVERT == b
                && (b ^ INVERT == 0x5D || b ^ INVERT == 0x5E))
  {
  }

  /** What goes on the wire for each byte. */
  lemma EscapeOnWire(b: byte)
    ensures Escape(b) == if b == 0x7E then [0x7D, 0x5E] else if b == 0x7D then [0x7D, 0x5D] else [b]
  {
  }

  /** What comes off it: an escape waits, the byte behind it counts with its sixth bit changed, and any
      other byte counts as it is. */
  lemma UnescapeOnWire(s: seq<byte>, c: byte)
    requires !Unescape(s).pending
    ensures Unescape(s + [0x7D]) == Unescaped(Unescape(s).data, true)
    ensures Unescape(s + [0x7D] + [c]) == Unescaped(Unescape(s).data + [c ^ 0x20], false)
    ensures c != 0x7D ==> Unescape(s + [c]) == Unescaped(Unescape(s).data + [c], false)
  {
    hide Unescape;
    UnescapeStep(s, 0x7D);
    UnescapeStep(s + [0x7D], c);
    UnescapeStep(s, c);
  }

  /** A frame on the wire: a flag, the escaped payload, its check sequence in the order asked for, a flag. */
  lemma FrameOnWire(payload: seq<byte>, bigEndian: bool)
    ensures var crc := CheckSequence(payload);
      var high, low := ((crc >> 8) & 0xFF) as byte, (crc & 0xFF) as byte;
      Encode(payload, bigEndian)
      == [0x7E] + EscapeAll(payload + if bigEndian then [high, low] else [low, high]) + [0x7E]
  {
    hide EscapeAll, CheckSequence;
  }

  lemma {:induction false} EscapeAllConcat(a: seq<byte>, b: seq<byte>)
    ensures EscapeAll(a + b) == EscapeAll(a) + EscapeAll(b)
  {
    hide Escape;
    if b == [] {
      assert a + b == a;
    } else {
      var n := |b| - 1;
      EscapeAllConcat(a, b[..n]);
      assert (a + b)[..|a + b| - 1] == a + b[..n];
    }
  }

  lemma {:induction false} EscapedHasNoFlag(s: seq<byte>)
    ensures FLAG !in EscapeAll(s)
  {
    hide Escape;
    if s != [] {
      EscapedHasNoFlag(s[..|s| - 1]);
      EscapeShape(s[|s| - 1]);
    }
  }

  lemma UnescapeStep(s: seq<byte>, b: byte)
    ensures var u := Unescape(s);
      Unescape(s + [b]) ==
      if u.pending then Unescaped(u.data + [b ^ INVERT], false)
      else if b == ESC then Unescaped(u.data, true)
      else Unescaped(u.data + [b], false)
  {
    assert (s + [b])[..|s + [b]| - 1] == s;
  }

  /** Unescaping undoes escaping, after any prefix that left no escape pending. */
  lemma {:induction false} UnescapeEscaped(prefix: seq<byte>, s: seq<byte>)
    requires !Unescape(prefix).pending
    ensures Unescape(prefix + EscapeAll(s)) == Unescaped(Unescape(prefix).data + s, false)
  {
    hide Escape, Unescape;
    if s == [] {
      assert prefix + EscapeAll(s) == prefix;
    } else {
      var n := |s| - 1;
      UnescapeEscaped(prefix, s[..n]);
      var done := prefix + EscapeAll(s[..n]);
      var data := Unescape(prefix).data;
      assert prefix + EscapeAll(s) == done + Escape(s[n]);
      assert (data + s[..n]) + [s[n]] == data + s;
      EscapeShape(s[n]);
      UnescapeStep(done, s[n]);
      UnescapeStep(done, ESC);
      UnescapeStep(done + [ESC], s[n] ^ INVERT);
      assert (done + [ESC]) + [s[n] ^ INVERT] == done + [ESC, s[n] ^ INVERT];
    }
  }
}
