/** The Python ends of the link: the frame codec of SimpleHDLC and the dump parser. */
module PythonPeers {
  import opened Wrappers
  import opened Crc
  import opened Hdlc
  import opened HdlcReception

  // ---- Undoing escapes the Python way ----

  datatype Reading = Reading(data: seq<byte>, escaped: bool)

  /** An escape byte is never itself taken as escaped data. */
  function AddByte(r: Reading, b: byte): Reading {
    if b == ESC then r.(escaped := true)
    else if r.escaped then Reading(r.data + [b ^ INVERT], false)
    else Reading(r.data + [b], false)
  }

  function AddBytes(r: Reading, s: seq<byte>): Reading {
    if s == [] then r else AddByte(AddBytes(r, s[..|s| - 1]), s[|s| - 1])
  }

  /** What a byte does to a frame that is collecting. */
  lemma AddOnWire(data: seq<byte>, c: byte)
    ensures AddByte(Reading(data, false), 0x7D) == Reading(data, true)
    ensures AddByte(Reading(data, true), 0x7D) == Reading(data, true)
    ensures c != 0x7D ==> AddByte(Reading(data, true), c) == Reading(data + [c ^ 0x20], false)
    ensures c != 0x7D ==> AddByte(Reading(data, false), c) == Reading(data + [c], false)
  {
  }

  lemma AddBytesAppend(r: Reading, s: seq<byte>, b: byte)
    ensures AddBytes(r, s + [b]) == AddByte(AddBytes(r, s), b)
  {
    assert (s + [b])[..|s + [b]| - 1] == s;
  }

  lemma {:induction false} AddEscaped(r: Reading, s: seq<byte>)
    requires !r.escaped
    ensures AddBytes(r, EscapeAll(s)) == Reading(r.data + s, false)
  {
    hide Escape, AddBytes;
    if s == [] {
      AddNothing(r);
      assert r.data + s == r.data;
    } else {
      var n := |s| - 1;
      AddEscaped(r, s[..n]);
      var before := EscapeAll(s[..n]);
      assert (r.data + s[..n]) + [s[n]] == r.data + s;
      EscapeShape(s[n]);
      AddBytesAppend(r, before, s[n]);
      AddBytesAppend(r, before, ESC);
      AddBytesAppend(r, before + [ESC], s[n] ^ INVERT);
      assert (before + [ESC]) + [s[n] ^ INVERT] == before + [ESC, s[n] ^ INVERT];
    }
  }

  lemma AddNothing(r: Reading)
    ensures AddBytes(r, []) == r
  {
  }

  predicate NoDoubleEscape(s: seq<byte>) {
    forall i :: 0 <= i < |s| - 1 ==> !(s[i] == ESC && s[i + 1] == ESC)
  }

  /** Either the two readings run level, or the Python one has fallen behind for good. */
  lemma {:induction false} ReadingsCompared(s: seq<byte>)
    ensures var c, p := Unescape(s), AddBytes(Reading([], false), s);
      && (p.escaped <==> s != [] && s[|s| - 1] == ESC)
      && (c.pending ==> p.escaped)
      && if NoDoubleEscape(s) then c == Unescaped(p.data, p.escaped) else |c.data| > |p.data|
  {
    hide AddBytes, Unescape;
    if s == [] {
      AddNothing(Reading([], false));
      NothingUnescaped();
    } else {
      var n := |s| - 1;
      var t, b := s[..n], s[n];
      ReadingsCompared(t);
      UnescapeStep(t, b);
      AddBytesAppend(Reading([], false), t, b);
      assert s == t + [b];
    }
  }

  lemma NothingUnescaped()
    ensures Unescape([]) == Unescaped([], false)
  {
  }

  /** The two ends read the same data out of a segment exactly when no escape follows an escape. */
  lemma SameDataIff(s: seq<byte>)
    ensures Unescape(s).data == AddBytes(Reading([], false), s).data <==> NoDoubleEscape(s)
  {
    hide AddBytes, Unescape;
    ReadingsCompared(s);
  }

  // ---- The receiver of SimpleHDLC ----

  datatype PyState = Waiting | Receiving(frame: Reading)

  /** A frame that passes the check, or what was held of one that does not. */
  datatype PyEvent = Good(payload: seq<byte>) | Bad(data: seq<byte>)

  /** The last two bytes, or fewer when there are fewer. */
  function Tail(data: seq<byte>): seq<byte> {
    if |data| < 2 then data else data[|data| - 2..]
  }

  function Front(data: seq<byte>): seq<byte> {
    if |data| < 2 then [] else data[..|data| - 2]
  }

  function Finish(data: seq<byte>): PyEvent {
    if Tail(data) == FcsBytes(CheckSequence(Front(data)), true) then Good(Front(data)) else Bad(Front(data))
  }

  function PyStep(s: PyState, b: byte): (PyState, seq<PyEvent>) {
    if b == FLAG then
      if s.Waiting? || s.frame.data == [] then (Receiving(Reading([], false)), [])
      else (Waiting, [Finish(s.frame.data)])
    else if s.Waiting? then (s, [])
    else (Receiving(AddByte(s.frame, b)), [])
  }

  function PyRun(s: PyState, heard: seq<byte>): (PyState, seq<PyEvent>) {
    if heard == [] then (s, []) else
    var before := PyRun(s, heard[..|heard| - 1]);
    var last := PyStep(before.0, heard[|heard| - 1]);
    (last.0, before.1 + last.1)
  }

  function Goods(events: seq<PyEvent>): seq<seq<byte>> {
    if events == [] then [] else
    Goods(events[..|events| - 1]) + match events[|events| - 1] { case Good(p) => [p] case Bad(d) => [] }
  }

  /** The payloads that pass the check. */
  function PyAccepted(heard: seq<byte>): seq<seq<byte>> {
    Goods(PyRun(Waiting, heard).1)
  }

  lemma FinishIsAcceptance(data: seq<byte>)
    ensures Finish(data) == if Accepted(data, true) then Good(data[..|data| - 2]) else Bad(Front(data))
  {
    hide FcsBytes, CheckSequence;
  }

  lemma PyRunAppend(s: PyState, h: seq<byte>, b: byte)
    ensures var r := PyRun(s, h); var t := PyStep(r.0, b); PyRun(s, h + [b]) == (t.0, r.1 + t.1)
  {
    hide PyStep;
    assert (h + [b])[..|h + [b]| - 1] == h;
  }

  lemma GoodsAppend(events: seq<PyEvent>, e: PyEvent)
    ensures Goods(events + [e]) == Goods(events) + if e.Good? then [e.payload] else []
  {
    assert (events + [e])[..|events + [e]| - 1] == events;
  }

  /** Data bytes inside a frame collect; outside one they are lost. */
  lemma {:induction false} PyData(s: PyState, h: seq<byte>, w: seq<byte>)
    requires FLAG !in w
    ensures PyRun(s, h + w).1 == PyRun(s, h).1
    ensures PyRun(s, h).0.Waiting? ==> PyRun(s, h + w).0 == Waiting
    ensures PyRun(s, h).0.Receiving? ==> PyRun(s, h + w).0 == Receiving(AddBytes(PyRun(s, h).0.frame, w))
  {
    hide PyRun, AddByte, AddBytes;
    if w == [] {
      assert h + w == h;
      if PyRun(s, h).0.Receiving? {
        AddNothing(PyRun(s, h).0.frame);
      }
    } else {
      var n := |w| - 1;
      PyData(s, h, w[..n]);
      PyRunAppend(s, h + w[..n], w[n]);
      assert h + w == (h + w[..n]) + [w[n]] && w == w[..n] + [w[n]];
      if PyRun(s, h).0.Receiving? {
        AddBytesAppend(PyRun(s, h).0.frame, w[..n], w[n]);
      }
    }
  }

  /** Nothing collected: the next flag starts a frame. */
  predicate Empty(s: PyState) {
    s.Waiting? || s.frame.data == []
  }

  /** A frame with its own two flags is accepted whole, and the receiver waits for the next. */
  lemma PyFrame(s: PyState, h: seq<byte>, payload: seq<byte>)
    requires Empty(PyRun(s, h).0)
    ensures PyRun(s, h + Encode(payload, true)) == (Waiting, PyRun(s, h).1 + [Good(payload)])
  {
    hide PyRun, AddByte, AddBytes, EscapeAll, Body, Accepted, Finish;
    var body := Body(payload, true);
    var w := EscapeAll(body);
    PyRunAppend(s, h, FLAG);
    EscapedHasNoFlag(body);
    PyData(s, h + [FLAG], w);
    AddEscaped(Reading([], false), body);
    assert [] + body == body;
    PyRunAppend(s, h + [FLAG] + w, FLAG);
    BodyAccepted(payload, true);
    FinishIsAcceptance(body);
    PayloadOfBody(payload);
    assert h + Encode(payload, true) == h + [FLAG] + w + [FLAG];
    assert PyRun(s, h).1 + [] == PyRun(s, h).1;
  }

  lemma PayloadOfBody(payload: seq<byte>)
    ensures var b := Body(payload, true); b != [] && b[..|b| - 2] == payload
  {
    hide FcsBytes, CheckSequence;
  }

  function AllGood(payloads: seq<seq<byte>>): (events: seq<PyEvent>)
    ensures |events| == |payloads|
  {
    seq(|payloads|, i requires 0 <= i < |payloads| => Good(payloads[i]))
  }

  lemma {:induction false} GoodsAllGood(payloads: seq<seq<byte>>)
    ensures Goods(AllGood(payloads)) == payloads
  {
    if payloads != [] {
      var n := |payloads| - 1;
      GoodsAllGood(payloads[..n]);
      assert AllGood(payloads)[..n] == AllGood(payloads[..n]);
      assert payloads == payloads[..n] + [payloads[n]];
    }
  }

  /** A stream of frames with their own flags, idle flags between them, is accepted whole. */
  lemma {:induction false} PyStream(items: seq<Item>)
    ensures PyAccepted(Wire(items, true)) == Sent(items)
  {
    hide Wire, Sent, PyRun, AllGood, Goods;
    PyStreamRead(items);
    GoodsAllGood(Sent(items));
  }

  lemma {:induction false} PyStreamRead(items: seq<Item>)
    ensures PyRun(Waiting, Wire(items, true)).1 == AllGood(Sent(items))
    ensures Empty(PyRun(Waiting, Wire(items, true)).0)
  {
    hide Encode, PyRun;
    if items == [] {
      PyNothing();
    } else {
      var n := |items| - 1;
      var h := Wire(items[..n], true);
      var events := PyRun(Waiting, h).1;
      PyStreamRead(items[..n]);
      match items[n]
      case Idle =>
        PyRunAppend(Waiting, h, FLAG);
        assert events + [] == events;
      case Packet(p) =>
        PyFrame(Waiting, h, p);
    }
  }

  lemma PyNothing()
    ensures PyRun(Waiting, []) == (Waiting, []) && Goods([]) == []
  {
  }

  // ---- Reports that may raise ----

  /** What a receiver does with a frame it has finished: the one of the tools decodes it as text, good or
      bad; the one of the hardware debugger, used with its binary callback only, decodes bad ones. */
  datatype Reporting = Text | Binary

  /** The bytes that decode. */
  type Decoder = seq<byte> -> bool

  predicate Raises(mode: Reporting, decodes: Decoder, e: PyEvent) {
    match e
    case Good(p) => mode.Text? && !decodes(p)
    case Bad(d) => !decodes(d)
  }

  /** Bytes that do not decode end the reader: only the frames before them are reported. */
  function Reported(mode: Reporting, decodes: Decoder, events: seq<PyEvent>): seq<PyEvent> {
    if events == [] then [] else
    var n := |events| - 1;
    var before := Reported(mode, decodes, events[..n]);
    if |before| < n || Raises(mode, decodes, events[n]) then before else events
  }

  predicate NoneRaises(mode: Reporting, decodes: Decoder, events: seq<PyEvent>) {
    forall i :: 0 <= i < |events| ==> !Raises(mode, decodes, events[i])
  }

  /** What is reported is exactly the events before the first that raises. */
  lemma {:induction false} ReportedStops(mode: Reporting, decodes: Decoder, events: seq<PyEvent>)
    ensures var r := Reported(mode, decodes, events);
      && r <= events
      && NoneRaises(mode, decodes, r)
      && (|r| < |events| ==> Raises(mode, decodes, events[|r|]))
      && (r == events <==> NoneRaises(mode, decodes, events))
  {
    hide Raises;
    if events != [] {
      ReportedStops(mode, decodes, events[..|events| - 1]);
    }
  }

  /** The payloads a receiver reports of the bytes it reads. */
  function PyReported(mode: Reporting, decodes: Decoder, heard: seq<byte>): seq<seq<byte>> {
    Goods(Reported(mode, decodes, PyRun(Waiting, heard).1))
  }

  /** The receiver with its callbacks: between frames, within one, or holding a finished frame whose
      callback has raised. */
  datatype ReaderState = Between | Within(frame: Reading) | Held(data: seq<byte>, error: bool)

  datatype Reader = Reader(state: ReaderState, reports: seq<PyEvent>, raised: bool)

  const NEW_READER := Reader(Between, [], false)

  /** A flag finishes the frame that is collecting, or once more the one that is held. */
  function FinishFrame(data: seq<byte>, error: bool): ReaderState {
    if data == [] then Within(Reading([], false))
    else Held(Front(data), error || Finish(data).Bad?)
  }

  function TakeByte(s: ReaderState, b: byte): ReaderState {
    match s
    case Between => if b == FLAG then Within(Reading([], false)) else s
    case Within(frame) => if b == FLAG then FinishFrame(frame.data, false) else Within(AddByte(frame, b))
    case Held(data, error) => if b == FLAG then FinishFrame(data, error) else s
  }

  /** A finished frame goes to its callback and is let go, unless that raises. */
  function Report(mode: Reporting, decodes: Decoder, reports: seq<PyEvent>, s: ReaderState): Reader {
    if !s.Held? then Reader(s, reports, false) else
    var e := if s.error then Bad(s.data) else Good(s.data);
    if Raises(mode, decodes, e) then Reader(s, reports, true) else Reader(Between, reports + [e], false)
  }

  function ReaderStep(mode: Reporting, decodes: Decoder, r: Reader, b: byte): Reader {
    Report(mode, decodes, r.reports, TakeByte(r.state, b))
  }

  /** Bytes in, until one raises. */
  function ReaderRun(mode: Reporting, decodes: Decoder, r: Reader, bs: seq<byte>): Reader {
    if bs == [] then r.(raised := false) else
    var before := ReaderRun(mode, decodes, r, bs[..|bs| - 1]);
    if before.raised then before else ReaderStep(mode, decodes, before, bs[|bs| - 1])
  }

  lemma ReportedAppend(mode: Reporting, decodes: Decoder, events: seq<PyEvent>, e: PyEvent)
    ensures Reported(mode, decodes, events + [e]) ==
      if |Reported(mode, decodes, events)| < |events| || Raises(mode, decodes, e)
      then Reported(mode, decodes, events) else events + [e]
  {
    hide Raises;
    assert (events + [e])[..|events + [e]| - 1] == events;
  }

  lemma ReaderRunAppend(mode: Reporting, decodes: Decoder, r: Reader, bs: seq<byte>, b: byte)
    ensures var before := ReaderRun(mode, decodes, r, bs);
      ReaderRun(mode, decodes, r, bs + [b]) == if before.raised then before else ReaderStep(mode, decodes, before, b)
  {
    hide ReaderStep;
    assert (bs + [b])[..|bs + [b]| - 1] == bs;
  }

  /** A new reader reports exactly the frames before the first whose callback raises, and stops there. */
  lemma {:induction false} ReaderReports(mode: Reporting, decodes: Decoder, heard: seq<byte>)
    ensures var r, py := ReaderRun(mode, decodes, NEW_READER, heard), PyRun(Waiting, heard);
      && r.reports == Reported(mode, decodes, py.1)
      && (r.raised <==> |r.reports| < |py.1|)
      && (!r.raised ==> r.state == match py.0 case Waiting => Between case Receiving(frame) => Within(frame))
  {
    hide PyRun, Reported, Raises, Finish, AddByte;
    if heard == [] {
      PyNothing();
      NothingReported(mode, decodes);
    } else {
      var n := |heard| - 1;
      assert heard == heard[..n] + [heard[n]];
      ReaderReports(mode, decodes, heard[..n]);
      PyRunAppend(Waiting, heard[..n], heard[n]);
      ReaderRunAppend(mode, decodes, NEW_READER, heard[..n], heard[n]);
      var py := PyRun(Waiting, heard[..n]);
      var t := PyStep(py.0, heard[n]).1;
      ReportedStops(mode, decodes, py.1);
      if t == [] {
        assert py.1 + t == py.1;
      } else {
        assert t == [t[0]];
        ReportedAppend(mode, decodes, py.1, t[0]);
        FinishKeepsFront(py.0.frame.data);
      }
    }
  }

  lemma NothingReported(mode: Reporting, decodes: Decoder)
    ensures Reported(mode, decodes, []) == []
  {
  }

  lemma FinishKeepsFront(data: seq<byte>)
    ensures Finish(data) == if Finish(data).Bad? then Bad(Front(data)) else Good(Front(data))
  {
    hide FcsBytes, CheckSequence;
  }

  // ---- One frame at a reader ----

  /** Nothing has raised, and no frame has begun to collect. */
  predicate Rested(r: Reader) {
    !r.raised && (r.state.Between? || (r.state.Within? && r.state.frame.data == []))
  }

  lemma {:induction false} ReaderCollects(mode: Reporting, decodes: Decoder, heard: seq<byte>, w: seq<byte>)
    requires FLAG !in w
    requires var r := ReaderRun(mode, decodes, NEW_READER, heard); !r.raised && r.state.Within?
    ensures var r := ReaderRun(mode, decodes, NEW_READER, heard);
      ReaderRun(mode, decodes, NEW_READER, heard + w) == Reader(Within(AddBytes(r.state.frame, w)), r.reports, false)
  {
    hide ReaderRun, AddByte, AddBytes;
    if w == [] {
      assert heard + w == heard;
      AddNothing(ReaderRun(mode, decodes, NEW_READER, heard).state.frame);
    } else {
      var n := |w| - 1;
      ReaderCollects(mode, decodes, heard, w[..n]);
      ReaderRunAppend(mode, decodes, NEW_READER, heard + w[..n], w[n]);
      AddBytesAppend(ReaderRun(mode, decodes, NEW_READER, heard).state.frame, w[..n], w[n]);
      assert heard + w == (heard + w[..n]) + [w[n]] && w == w[..n] + [w[n]];
    }
  }

  lemma OpenFrame(mode: Reporting, decodes: Decoder, heard: seq<byte>)
    requires Rested(ReaderRun(mode, decodes, NEW_READER, heard))
    ensures ReaderRun(mode, decodes, NEW_READER, heard + [FLAG])
         == Reader(Within(Reading([], false)), ReaderRun(mode, decodes, NEW_READER, heard).reports, false)
  {
    hide ReaderRun;
    ReaderRunAppend(mode, decodes, NEW_READER, heard, FLAG);
  }

  /** The kept bytes of a finished frame: all but the last two. */
  function Kept(y: seq<byte>): seq<byte> {
    if |y| < 2 then [] else y[..|y| - 2]
  }

  /** A whole frame of any bytes between two flags, after any history that raised nothing and left nothing
      collected. When its bytes have to be decoded and do not, the reader raises, has reported nothing and
      still holds the frame; otherwise it has reported the frame, good or bad, and waits. A bad frame always
      has to be decoded, a good one for a text callback. */
  lemma {:induction false} FrameRead(mode: Reporting, decodes: Decoder, heard: seq<byte>, y: seq<byte>)
    requires y != [] && Rested(ReaderRun(mode, decodes, NEW_READER, heard))
    ensures var reports := ReaderRun(mode, decodes, NEW_READER, heard).reports;
      var good, kept := Accepted(y, true), Kept(y);
      ReaderRun(mode, decodes, NEW_READER, heard + [0x7E] + EscapeAll(y) + [0x7E])
      == if !decodes(kept) && (!good || mode == Text) then Reader(Held(kept, !good), reports, true)
         else Reader(Between, reports + [if good then Good(kept) else Bad(kept)], false)
  {
    hide ReaderRun, AddBytes, EscapeAll, Accepted, Finish;
    var h := heard + [FLAG];
    EscapedHasNoFlag(y);
    OpenFrame(mode, decodes, heard);
    ReaderCollects(mode, decodes, h, EscapeAll(y));
    AddEscaped(Reading([], false), y);
    assert [] + y == y;
    ReaderRunAppend(mode, decodes, NEW_READER, h + EscapeAll(y), FLAG);
    FinishIsAcceptance(y);
  }

  /** So a damaged frame ends the reader exactly when its kept bytes do not decode. */
  lemma DamagedFrameRead(mode: Reporting, decodes: Decoder, y: seq<byte>)
    requires y != [] && !Accepted(y, true)
    ensures var r := ReaderRun(mode, decodes, NEW_READER, [0x7E] + EscapeAll(y) + [0x7E]);
      && (r.raised <==> !decodes(Kept(y)))
      && (r.raised ==> r.reports == [] && r.state == Held(Kept(y), true))
      && (!r.raised ==> r.reports == [Bad(Kept(y))] && r.state == Between)
  {
    hide ReaderRun, EscapeAll, Accepted, Kept;
    NewReader(mode, decodes);
    var none: seq<byte> := [];
    FrameRead(mode, decodes, none, y);
    assert none + [0x7E] + EscapeAll(y) + [0x7E] == [0x7E] + EscapeAll(y) + [0x7E];
    assert [] + [Bad(Kept(y))] == [Bad(Kept(y))];
  }

  lemma NewReader(mode: Reporting, decodes: Decoder)
    ensures ReaderRun(mode, decodes, NEW_READER, []) == NEW_READER && Rested(NEW_READER)
  {
  }

  /** A reader fed on after an exception: a flag takes two more bytes off the frame it holds and judges it once
      more, good only if it was good before, until nothing is left and a new frame begins; any other byte
      gives the frame to its callback once more. */
  lemma HeldFrameAgain(mode: Reporting, decodes: Decoder, r: Reader, b: byte)
    requires r.state.Held?
    ensures var data, error := r.state.data, r.state.error;
      ReaderStep(mode, decodes, r, b) ==
      if b == 0x7E && data == [] then Reader(Within(Reading([], false)), r.reports, false)
      else
        var kept := if b == 0x7E then Kept(data) else data;
        var bad := error || (b == 0x7E && !Accepted(data, true));
        if !decodes(kept) && (bad || mode == Text) then Reader(Held(kept, bad), r.reports, true)
        else Reader(Between, r.reports + [if bad then Bad(kept) else Good(kept)], false)
  {
    hide Accepted, Finish;
    FinishIsAcceptance(r.state.data);
  }

  predicate AllDecode(decodes: Decoder, payloads: seq<seq<byte>>) {
    forall i :: 0 <= i < |payloads| ==> decodes(payloads[i])
  }

  lemma {:induction false} GoodsLength(events: seq<PyEvent>)
    ensures |Goods(events)| <= |events|
  {
    if events != [] {
      GoodsLength(events[..|events| - 1]);
    }
  }

  lemma GoodFramesRaise(mode: Reporting, decodes: Decoder, payloads: seq<seq<byte>>)
    ensures NoneRaises(mode, decodes, AllGood(payloads)) <==> mode.Binary? || AllDecode(decodes, payloads)
  {
    var events := AllGood(payloads);
    if mode.Text? {
      forall i | 0 <= i < |payloads| ensures Raises(mode, decodes, events[i]) <==> !decodes(payloads[i]) {
      }
    }
  }

  /** Good frames are reported to the last exactly when the receiver does not decode them or all decode. */
  lemma GoodFramesReported(mode: Reporting, decodes: Decoder, payloads: seq<seq<byte>>)
    ensures Goods(Reported(mode, decodes, AllGood(payloads))) == payloads
       <==> mode.Binary? || AllDecode(decodes, payloads)
  {
    hide Reported, Goods, AllGood, AllDecode, NoneRaises;
    var events := AllGood(payloads);
    ReportedStops(mode, decodes, events);
    GoodFramesRaise(mode, decodes, payloads);
    GoodsAllGood(payloads);
    GoodsLength(Reported(mode, decodes, events));
  }

  // ---- The dump parser ----

  /** Escapes are remembered even between frames. */
  datatype DumpState = DumpState(inFrame: bool, frame: Reading)

  function DumpStep(s: DumpState, b: byte): (DumpState, seq<PyEvent>) {
    if !s.inFrame then (s.(inFrame := b == FLAG), [])
    else if b == FLAG then
      if s.frame.data == [] then (s, [])
      else (DumpState(false, Reading([], s.frame.escaped)), [Finish(s.frame.data)])
    else (s.(frame := AddByte(s.frame, b)), [])
  }

  function DumpRun(s: DumpState, heard: seq<byte>): (DumpState, seq<PyEvent>) {
    if heard == [] then (s, []) else
    var before := DumpRun(s, heard[..|heard| - 1]);
    var last := DumpStep(before.0, heard[|heard| - 1]);
    (last.0, before.1 + last.1)
  }

  const DUMP_START := DumpState(false, Reading([], false))

  function DumpAccepted(heard: seq<byte>): seq<seq<byte>> {
    Goods(DumpRun(DUMP_START, heard).1)
  }

  lemma DumpRunAppend(s: DumpState, h: seq<byte>, b: byte)
    ensures var r := DumpRun(s, h); var t := DumpStep(r.0, b); DumpRun(s, h + [b]) == (t.0, r.1 + t.1)
  {
    hide DumpStep;
    assert (h + [b])[..|h + [b]| - 1] == h;
  }

  lemma {:induction false} DumpData(s: DumpState, h: seq<byte>, w: seq<byte>)
    requires FLAG !in w && DumpRun(s, h).0.inFrame
    ensures DumpRun(s, h + w) == (DumpState(true, AddBytes(DumpRun(s, h).0.frame, w)), DumpRun(s, h).1)
  {
    hide DumpRun, AddByte, AddBytes;
    if w == [] {
      assert h + w == h;
      AddNothing(DumpRun(s, h).0.frame);
    } else {
      var n := |w| - 1;
      DumpData(s, h, w[..n]);
      DumpRunAppend(s, h + w[..n], w[n]);
      AddBytesAppend(DumpRun(s, h).0.frame, w[..n], w[n]);
      assert h + w == (h + w[..n]) + [w[n]] && w == w[..n] + [w[n]];
      assert DumpRun(s, h).1 + [] == DumpRun(s, h).1;
    }
  }

  lemma DumpFrame(s: DumpState, h: seq<byte>, payload: seq<byte>)
    requires DumpRun(s, h).0.frame == Reading([], false)
    ensures DumpRun(s, h + Encode(payload, true)) == (DUMP_START, DumpRun(s, h).1 + [Good(payload)])
  {
    hide DumpRun, AddByte, AddBytes, EscapeAll, Body, Accepted, Finish;
    var body := Body(payload, true);
    var w := EscapeAll(body);
    DumpRunAppend(s, h, FLAG);
    EscapedHasNoFlag(body);
    DumpData(s, h + [FLAG], w);
    AddEscaped(Reading([], false), body);
    assert [] + body == body;
    DumpRunAppend(s, h + [FLAG] + w, FLAG);
    BodyAccepted(payload, true);
    FinishIsAcceptance(body);
    PayloadOfBody(payload);
    assert h + Encode(payload, true) == h + [FLAG] + w + [FLAG];
    assert DumpRun(s, h).1 + [] == DumpRun(s, h).1;
  }

  lemma {:induction false} DumpStream(items: seq<Item>)
    ensures DumpAccepted(Wire(items, true)) == Sent(items)
    ensures DumpRun(DUMP_START, Wire(items, true)).0.frame == Reading([], false)
  {
    hide Encode, DumpRun, Goods;
    if items == [] {
      DumpNothing();
    } else {
      var n := |items| - 1;
      var h := Wire(items[..n], true);
      var events := DumpRun(DUMP_START, h).1;
      DumpStream(items[..n]);
      match items[n]
      case Idle =>
        DumpRunAppend(DUMP_START, h, FLAG);
        assert events + [] == events;
      case Packet(p) =>
        DumpFrame(DUMP_START, h, p);
        GoodsAppend(events, Good(p));
    }
  }

  lemma DumpNothing()
    ensures DumpRun(DUMP_START, []) == (DUMP_START, []) && Goods([]) == []
  {
  }

  // ---- All receivers ----

  /** On every stream of frames that each have their own flags the receivers of the Pi, of the hardware
      debugger and of the dump parser accept the same payloads, in order; the one of the tools reports all
      of them exactly when all decode. */
  lemma {:induction false} Interoperate(items: seq<Item>, decodes: Decoder)
    requires Fits(items)
    ensures Delivered(Wire(items, true), true) == Sent(items)
    ensures PyReported(Binary, decodes, Wire(items, true)) == Sent(items)
    ensures PyReported(Text, decodes, Wire(items, true)) == Sent(items) <==> AllDecode(decodes, Sent(items))
    ensures DumpAccepted(Wire(items, true)) == Sent(items)
  {
    hide Wire, Sent, Fits, Delivered, DumpAccepted, Reported, Goods, PyRun, AllGood, AllDecode;
    FreshStream(items, true);
    PyStreamRead(items);
    GoodFramesReported(Binary, decodes, Sent(items));
    GoodFramesReported(Text, decodes, Sent(items));
    DumpStream(items);
  }
}
