/** Where the Python receivers and the Pi part: flags that two frames share, and escapes before flags. */
module PythonStreams {
  import opened Wrappers
  import opened Crc
  import opened Hdlc
  import opened HdlcReception
  import opened PythonPeers

  // ---- Segments between flags ----

  /** A segment closed by a flag: empty, or the escaped body of a payload. */
  type Closed = Option<seq<byte>>

  function SegmentBytes(s: Closed): seq<byte> {
    if s.None? then [] else EscapeAll(Body(s.value, true))
  }

  /** Segments and the flags behind them; the first stands before any flag. */
  function Flagged(segments: seq<Closed>): seq<byte> {
    if segments == [] then [] else
    var n := |segments| - 1;
    Flagged(segments[..n]) + SegmentBytes(segments[n]) + [FLAG]
  }

  function PayloadsOf(segments: seq<Closed>): seq<seq<byte>> {
    if segments == [] then [] else
    var n := |segments| - 1;
    PayloadsOf(segments[..n]) + if segments[n].Some? then [segments[n].value] else []
  }

  predicate AllFit(segments: seq<Closed>) {
    forall i :: 0 <= i < |segments| && segments[i].Some? ==> |segments[i].value| + 2 < MAX_FRAME
  }

  lemma HearSegment(h: seq<byte>, s: Closed)
    requires Segment(h) == [] && (s.Some? ==> |s.value| + 2 < MAX_FRAME)
    ensures var closed := h + SegmentBytes(s) + [FLAG];
      && Segment(closed) == []
      && Delivered(closed, true) == Delivered(h, true) + if s.Some? then [s.value] else []
  {
    hide Segment, Events, Payloads, EscapeAll, Body, Close, Accepted;
    if s.None? {
      HearFlag(h, true);
      NothingBuffered(h, true);
      PayloadsAppend(Events(h, true), Runt);
      assert h + [] + [FLAG] == h + [FLAG];
    } else {
      HearFrame(h, Body(s.value, true), true);
      HeldAll(Body(s.value, true));
      BodyAccepted(s.value, true);
      PayloadsAppend(Events(h, true), Frame(s.value));
    }
  }

  /** The Pi takes every segment, wherever its flags come from. */
  lemma {:induction false} FlaggedDelivers(segments: seq<Closed>)
    requires AllFit(segments)
    ensures Delivered(Flagged(segments), true) == PayloadsOf(segments) && Segment(Flagged(segments)) == []
  {
    hide Segment, Delivered, SegmentBytes;
    if segments == [] {
      NothingDelivered(true);
      NothingHeard();
    } else {
      var n := |segments| - 1;
      FlaggedDelivers(segments[..n]);
      HearSegment(Flagged(segments[..n]), segments[n]);
    }
  }

  /** The Python receivers are inside a frame after these segments. */
  predicate Opens(segments: seq<Closed>) {
    segments != [] && !(segments[|segments| - 1].Some? && Opens(segments[..|segments| - 1]))
  }

  /** What they take of them. */
  function PyTaken(segments: seq<Closed>): seq<seq<byte>> {
    if segments == [] then [] else
    var n := |segments| - 1;
    PyTaken(segments[..n]) + if segments[n].Some? && Opens(segments[..n]) then [segments[n].value] else []
  }

  /** Every frame has two flags of its own. */
  predicate OwnFlags(segments: seq<Closed>) {
    && (segments != [] ==> segments[0].None?)
    && forall i :: 0 < i < |segments| ==> segments[i - 1].None? || segments[i].None?
  }

  lemma OwnFlagsAppend(segments: seq<Closed>, s: Closed)
    ensures OwnFlags(segments + [s])
       <==> OwnFlags(segments) && (s.Some? ==> segments != [] && segments[|segments| - 1].None?)
  {
    var all := segments + [s];
    if OwnFlags(all) {
      assert forall i :: 0 <= i < |segments| ==> all[i] == segments[i];
      assert all[|segments|] == s;
    }
  }

  lemma TakenAppend(segments: seq<Closed>, s: Closed)
    ensures PayloadsOf(segments + [s]) == PayloadsOf(segments) + if s.Some? then [s.value] else []
    ensures PyTaken(segments + [s]) == PyTaken(segments) + if s.Some? && Opens(segments) then [s.value] else []
    ensures Opens(segments + [s]) <==> s.None? || !Opens(segments)
  {
    hide OwnFlags;
    assert (segments + [s])[..|segments + [s]| - 1] == segments;
  }

  lemma {:induction false} TakenCompared(segments: seq<Closed>)
    ensures |PyTaken(segments)| <= |PayloadsOf(segments)|
    ensures |PyTaken(segments)| == |PayloadsOf(segments)| ==> PyTaken(segments) == PayloadsOf(segments)
    ensures OwnFlags(segments) <==> |PyTaken(segments)| == |PayloadsOf(segments)|
    ensures OwnFlags(segments) ==> (Opens(segments) <==> segments != [] && segments[|segments| - 1].None?)
  {
    hide PyTaken, PayloadsOf, Opens, OwnFlags;
    if segments == [] {
      NothingTaken();
    } else {
      var before, s := segments[..|segments| - 1], segments[|segments| - 1];
      assert segments == before + [s];
      TakenCompared(before);
      TakenAppend(before, s);
      OwnFlagsAppend(before, s);
    }
  }

  lemma NothingTaken()
    ensures PyTaken([]) == [] && PayloadsOf([]) == [] && OwnFlags([]) && !Opens([])
  {
  }

  lemma PyRunFlag(h: seq<byte>, w: seq<byte>)
    requires FLAG !in w && PyRun(Waiting, h).0.Receiving?
    ensures var r, frame := PyRun(Waiting, h), AddBytes(PyRun(Waiting, h).0.frame, w);
      PyRun(Waiting, h + w + [FLAG]) ==
      if frame.data == [] then (Receiving(Reading([], false)), r.1) else (Waiting, r.1 + [Finish(frame.data)])
  {
    hide PyRun, AddBytes, Finish;
    PyData(Waiting, h, w);
    PyRunAppend(Waiting, h + w, FLAG);
    assert PyRun(Waiting, h).1 + [] == PyRun(Waiting, h).1;
  }

  /** A segment and the flag behind it, by whether the receiver is inside a frame. */
  lemma PyReadSegment(h: seq<byte>, s: Closed, open: bool)
    requires PyRun(Waiting, h).0 == if open then Receiving(Reading([], false)) else Waiting
    ensures PyRun(Waiting, h + SegmentBytes(s) + [FLAG]) ==
      if open && s.Some? then (Waiting, PyRun(Waiting, h).1 + [Good(s.value)])
      else (Receiving(Reading([], false)), PyRun(Waiting, h).1)
  {
    hide PyRun, AddBytes, SegmentBytes, Finish;
    var w := SegmentBytes(s);
    SegmentRead(s);
    if open {
      PyRunFlag(h, w);
    } else {
      PyData(Waiting, h, w);
      PyRunAppend(Waiting, h + w, FLAG);
      assert PyRun(Waiting, h).1 + [] == PyRun(Waiting, h).1;
    }
  }

  lemma AllGoodAppend(payloads: seq<seq<byte>>, p: seq<byte>)
    ensures AllGood(payloads + [p]) == AllGood(payloads) + [Good(p)]
  {
  }

  lemma {:induction false} PyFlagged(segments: seq<Closed>)
    ensures PyRun(Waiting, Flagged(segments))
         == (if Opens(segments) then Receiving(Reading([], false)) else Waiting, AllGood(PyTaken(segments)))
  {
    hide PyRun, SegmentBytes, AllGood;
    if segments == [] {
      PyNothing();
      assert AllGood([]) == [];
    } else {
      var n := |segments| - 1;
      PyFlagged(segments[..n]);
      PyReadSegment(Flagged(segments[..n]), segments[n], Opens(segments[..n]));
      if Opens(segments[..n]) && segments[n].Some? {
        AllGoodAppend(PyTaken(segments[..n]), segments[n].value);
      } else {
        assert PyTaken(segments) == PyTaken(segments[..n]);
      }
    }
  }

  /** What a segment is read as, and what finishing it gives. */
  lemma SegmentRead(s: Closed)
    ensures FLAG !in SegmentBytes(s)
    ensures var r := AddBytes(Reading([], false), SegmentBytes(s));
      && !r.escaped && (r.data == [] <==> s.None?)
      && (s.Some? ==> Finish(r.data) == Good(s.value))
  {
    hide AddBytes, EscapeAll, Body, Accepted, Finish;
    if s.None? {
      AddNothing(Reading([], false));
    } else {
      var body := Body(s.value, true);
      EscapedHasNoFlag(body);
      AddEscaped(Reading([], false), body);
      assert [] + body == body;
      BodyAccepted(s.value, true);
      FinishIsAcceptance(body);
      PayloadOfBody(s.value);
    }
  }

  /** Over streams of such segments the Python receiver accepts what the Pi delivers exactly when no frame
      comes before the first flag and no two frames share one. */
  lemma {:induction false} AgreeIffOwnFlags(segments: seq<Closed>)
    requires AllFit(segments)
    ensures Delivered(Flagged(segments), true) == PayloadsOf(segments)
    ensures PyAccepted(Flagged(segments)) == PyTaken(segments)
    ensures PyAccepted(Flagged(segments)) == Delivered(Flagged(segments), true) <==> OwnFlags(segments)
  {
    hide Delivered, Flagged, PayloadsOf, PyTaken, OwnFlags, Opens, PyRun, Goods, AllGood;
    FlaggedDelivers(segments);
    PyFlagged(segments);
    GoodsAllGood(PyTaken(segments));
    TakenCompared(segments);
  }

  /** Every second element, from the first on. */
  function EverySecond(payloads: seq<seq<byte>>): seq<seq<byte>> {
    if payloads == [] then [] else
    var n := |payloads| - 1;
    EverySecond(payloads[..n]) + if n % 2 == 0 then [payloads[n]] else []
  }

  /** A flag, and frames that each share their closing flag with the next. */
  function Chain(payloads: seq<seq<byte>>): (c: seq<Closed>)
    ensures |c| == |payloads| + 1
  {
    [None] + seq(|payloads|, i requires 0 <= i < |payloads| => Some(payloads[i]))
  }

  lemma {:induction false} ChainTaken(payloads: seq<seq<byte>>)
    ensures PayloadsOf(Chain(payloads)) == payloads
    ensures PyTaken(Chain(payloads)) == EverySecond(payloads)
    ensures Opens(Chain(payloads)) <==> |payloads| % 2 == 0
  {
    hide PayloadsOf, PyTaken, Opens;
    if payloads == [] {
      EmptyChain();
    } else {
      var n := |payloads| - 1;
      var c := Chain(payloads);
      ChainTaken(payloads[..n]);
      assert c[..n + 1] == Chain(payloads[..n]) && c[n + 1] == Some(payloads[n]);
      LastSegment(c);
      assert payloads[..n] + [payloads[n]] == payloads;
    }
  }

  lemma EmptyChain()
    ensures PayloadsOf(Chain([])) == [] && PyTaken(Chain([])) == [] && Opens(Chain([]))
  {
    assert Chain([]) == [None];
    var start: seq<Closed> := [None];
    assert start[..0] == [];
  }

  lemma LastSegment(segments: seq<Closed>)
    requires segments != [] && segments[|segments| - 1].Some?
    ensures var before, p := segments[..|segments| - 1], segments[|segments| - 1].value;
      && PayloadsOf(segments) == PayloadsOf(before) + [p]
      && PyTaken(segments) == PyTaken(before) + (if Opens(before) then [p] else [])
      && Opens(segments) == !Opens(before)
  {
  }

  /** Of frames that share flags the Pi takes all and the Python receivers every second. */
  lemma {:induction false} SharedFlag(payloads: seq<seq<byte>>)
    requires AllFit(Chain(payloads))
    ensures Delivered(Flagged(Chain(payloads)), true) == payloads
    ensures PyAccepted(Flagged(Chain(payloads))) == EverySecond(payloads)
    ensures DumpAccepted(Flagged(Chain(payloads))) == EverySecond(payloads)
  {
    hide Delivered, Flagged, PayloadsOf, PyTaken, OwnFlags, Opens, PyAccepted, DumpAccepted, Chain, EverySecond;
    AgreeIffOwnFlags(Chain(payloads));
    ChainTaken(payloads);
    FlaggedKeepsEscapes(Chain(payloads));
    DumpFollowsPython(Flagged(Chain(payloads)));
  }

  // ---- Escapes before flags ----

  /** No flag stands directly behind an escape byte. */
  predicate NoEscapedFlag(h: seq<byte>) {
    forall i :: 0 < i < |h| && h[i] == FLAG ==> h[i - 1] != ESC
  }

  lemma NoEscapedFlagConcat(a: seq<byte>, b: seq<byte>)
    ensures NoEscapedFlag(a + b) ==> NoEscapedFlag(a)
    ensures NoEscapedFlag(a) && NoEscapedFlag(b) && (a != [] && b != [] && b[0] == FLAG ==> a[|a| - 1] != ESC)
        ==> NoEscapedFlag(a + b)
  {
    var h := a + b;
    if NoEscapedFlag(h) {
      forall i | 0 < i < |a| && a[i] == FLAG ensures a[i - 1] != ESC {
        assert h[i] == a[i] && h[i - 1] == a[i - 1];
      }
    }
  }

  lemma {:induction false} FlaggedKeepsEscapes(segments: seq<Closed>)
    ensures NoEscapedFlag(Flagged(segments))
    ensures Flagged(segments) != [] ==> Flagged(segments)[|Flagged(segments)| - 1] == FLAG
  {
    hide NoEscapedFlag, SegmentBytes;
    if segments == [] {
      NothingEscaped();
    } else {
      var n := |segments| - 1;
      var h, w := Flagged(segments[..n]), SegmentBytes(segments[n]);
      FlaggedKeepsEscapes(segments[..n]);
      SegmentEscapes(segments[n]);
      NoEscapedFlagConcat(w, [FLAG]);
      NoEscapedFlagConcat(h, w + [FLAG]);
      assert h + w + [FLAG] == h + (w + [FLAG]);
      NothingEscaped();
    }
  }

  lemma NothingEscaped()
    ensures NoEscapedFlag([]) && NoEscapedFlag([FLAG])
  {
  }

  lemma SegmentEscapes(s: Closed)
    ensures NoEscapedFlag(SegmentBytes(s))
    ensures SegmentBytes(s) != [] ==> SegmentBytes(s)[|SegmentBytes(s)| - 1] != ESC
  {
    hide EscapeAll, Body;
    if s.Some? {
      EscapedIsTransparent(Body(s.value, true));
    }
  }

  /** The dump parser and the Python receiver at the same point of the same frame. */
  predicate Level(py: PyState, dump: DumpState) {
    dump == match py
            case Waiting => DUMP_START
            case Receiving(frame) => DumpState(true, frame)
  }

  /** On every stream of bytes in which no flag stands directly behind an escape, the dump parser follows
      the Python receiver. */
  lemma {:induction false} DumpFollowsPython(h: seq<byte>)
    requires NoEscapedFlag(h)
    ensures DumpRun(DUMP_START, h).1 == PyRun(Waiting, h).1
    ensures DumpAccepted(h) == PyAccepted(h)
    ensures Level(PyRun(Waiting, h).0, DumpRun(DUMP_START, h).0)
    ensures PyRun(Waiting, h).0.Receiving? && PyRun(Waiting, h).0.frame.escaped ==> h != [] && h[|h| - 1] == ESC
  {
    hide PyRun, DumpRun, Finish, Goods;
    hide PyStep, DumpStep, Level, NoEscapedFlag;
    if h == [] {
      PyNothing();
      DumpNothing();
      StartLevel();
    } else {
      var before, b := h[..|h| - 1], h[|h| - 1];
      assert h == before + [b];
      NoEscapedFlagConcat(before, [b]);
      DumpFollowsPython(before);
      PyRunAppend(Waiting, before, b);
      DumpRunAppend(DUMP_START, before, b);
      if |h| > 1 && b == FLAG {
        LastNotEscaped(h);
      }
      StepLevel(PyRun(Waiting, before).0, DumpRun(DUMP_START, before).0, b);
    }
  }

  lemma StartLevel()
    ensures Level(Waiting, DUMP_START)
  {
  }

  lemma LastNotEscaped(h: seq<byte>)
    requires NoEscapedFlag(h) && |h| > 1 && h[|h| - 1] == FLAG
    ensures h[|h| - 2] != ESC
  {
  }

  /** Level receivers stay level, unless a flag finds an escape waiting. */
  lemma StepLevel(py: PyState, dump: DumpState, b: byte)
    requires Level(py, dump) && !(b == FLAG && py.Receiving? && py.frame.escaped)
    ensures Level(PyStep(py, b).0, DumpStep(dump, b).0) && PyStep(py, b).1 == DumpStep(dump, b).1
    ensures var next := PyStep(py, b).0; next.Receiving? && next.frame.escaped ==> b == ESC
  {
    hide Finish;
  }

  lemma {:induction false} AddBytesConcat(r: Reading, a: seq<byte>, b: seq<byte>)
    ensures AddBytes(r, a + b) == AddBytes(AddBytes(r, a), b)
  {
    hide AddByte;
    if b == [] {
      assert a + b == a;
    } else {
      var n := |b| - 1;
      AddBytesConcat(r, a, b[..n]);
      assert (a + b)[..|a + b| - 1] == a + b[..n];
    }
  }

  lemma AddOne(r: Reading, b: byte)
    ensures AddBytes(r, [b]) == AddByte(r, b)
  {
    assert [b][..0] == [];
  }

  /** An escape left over from before does nothing when an escape comes first, and otherwise changes the
      first byte. */
  lemma LeftOverEscape(body: seq<byte>)
    requires body != []
    ensures AddBytes(Reading([], true), EscapeAll(body))
         == Reading(if body[0] == ESC || body[0] == FLAG then body else [body[0] ^ INVERT] + body[1..], false)
  {
    hide AddBytes, EscapeAll, AddByte, Escape;
    var first, rest := body[0], body[1..];
    assert body == [first] + rest;
    EscapeAllConcat([first], rest);
    EscapeOne(first);
    EscapeShape(first);
    AddBytesConcat(Reading([], true), Escape(first), EscapeAll(rest));
    AddFirst(first);
    if first == ESC || first == FLAG {
      assert Escape(first) == [ESC] + [first ^ INVERT];
      AddBytesConcat(Reading([], true), [ESC], [first ^ INVERT]);
      AddOne(Reading([], true), ESC);
      AddOne(Reading([], true), first ^ INVERT);
      AddEscaped(Reading([first], false), rest);
    } else {
      AddOne(Reading([], true), first);
      AddEscaped(Reading([first ^ INVERT], false), rest);
    }
  }

  lemma AddFirst(b: byte)
    ensures AddByte(Reading([], true), ESC) == Reading([], true)
    ensures if b == ESC || b == FLAG then AddByte(Reading([], true), b ^ INVERT) == Reading([b], false)
            else AddByte(Reading([], true), b) == Reading([b ^ INVERT], false)
  {
  }

  lemma EscapeOne(b: byte)
    ensures EscapeAll([b]) == Escape(b)
  {
    assert [b][..0] == [];
  }

  lemma FirstByteChanged(payload: seq<byte>)
    ensures var body := Body(payload, true); !Accepted([body[0] ^ INVERT] + body[1..], true)
  {
    hide Body, Accepted, Burst;
    var body := Body(payload, true);
    var b := body[0] ^ INVERT;
    Inverted(body[0]);
    BodyAccepted(payload, true);
    TwoBytesAreABurst([], [body[0]], [b], body[1..]);
    assert [] + [body[0]] + body[1..] == body && [] + [b] + body[1..] == [b] + body[1..];
    CorruptFrameRejected(body, [b] + body[1..]);
  }

  lemma Inverted(b: byte)
    ensures b ^ INVERT != b
  {
  }

  /** Between frames, with an escape left over: the dump parser takes the next frame exactly when its
      first byte is an escaped one, and counts it as bad otherwise. */
  lemma {:induction false} SpoiledIff(h: seq<byte>, payload: seq<byte>)
    requires DumpRun(DUMP_START, h).0 == DumpState(false, Reading([], true))
    ensures var body, r := Body(payload, true), DumpRun(DUMP_START, h + Encode(payload, true));
      && r.0 == DUMP_START
      && |r.1| == |DumpRun(DUMP_START, h).1| + 1
      && DumpAccepted(h + Encode(payload, true))
         == DumpAccepted(h) + if body[0] == ESC || body[0] == FLAG then [payload] else []
  {
    hide DumpRun, AddByte, AddBytes, EscapeAll, Body, Accepted, Finish, Goods;
    var body := Body(payload, true);
    var w := EscapeAll(body);
    var f := h + [FLAG];
    DumpRunAppend(DUMP_START, h, FLAG);
    assert DumpRun(DUMP_START, h).1 + [] == DumpRun(DUMP_START, h).1;
    EscapedHasNoFlag(body);
    DumpData(DUMP_START, f, w);
    LeftOverEscape(body);
    var data := AddBytes(Reading([], true), w).data;
    DumpRunAppend(DUMP_START, f + w, FLAG);
    FinishIsAcceptance(data);
    GoodsAppend(DumpRun(DUMP_START, h).1, Finish(data));
    BodyAccepted(payload, true);
    PayloadOfBody(payload);
    FirstByteChanged(payload);
    assert h + Encode(payload, true) == f + w + [FLAG];
  }

  /** An unpaired escape before a flag leaves one over: the Python receiver takes the frame that follows,
      whatever it is, the dump parser only one that starts with an escaped byte. */
  lemma {:induction false} EscapedFlagSpoils(b: byte, payload: seq<byte>)
    requires b != FLAG && b != ESC
    ensures var h, body := [FLAG, b, ESC, FLAG], Body(payload, true);
      && PyAccepted(h + Encode(payload, true)) == [payload]
      && DumpAccepted(h + Encode(payload, true)) == if body[0] == ESC || body[0] == FLAG then [payload] else []
  {
    hide PyRun, DumpRun, Body, Finish, Goods, AddByte, Encode;
    var h := [FLAG, b, ESC, FLAG];
    ShortFrameRead(b);
    PyFrame(Waiting, h, payload);
    GoodsAppend(PyRun(Waiting, h).1, Good(payload));
    SpoiledIff(h, payload);
  }

  lemma ShortFrameRead(b: byte)
    requires b != FLAG && b != ESC
    ensures var h := [FLAG, b, ESC, FLAG];
      && PyRun(Waiting, h).0 == Waiting && Goods(PyRun(Waiting, h).1) == []
      && DumpRun(DUMP_START, h).0 == DumpState(false, Reading([], true)) && Goods(DumpRun(DUMP_START, h).1) == []
  {
    hide PyRun, DumpRun, Finish, Goods;
    PyNothing();
    DumpNothing();
    var h1, h2, h3 := [FLAG], [FLAG, b], [FLAG, b, ESC];
    assert [] + [FLAG] == h1 && h1 + [b] == h2 && h2 + [ESC] == h3 && h3 + [FLAG] == [FLAG, b, ESC, FLAG];
    PyRunAppend(Waiting, [], FLAG);
    var start: seq<byte> := [];
    assert start + [b] == [b];
    PyRunAppend(Waiting, h1, b);
    PyRunAppend(Waiting, h2, ESC);
    PyRunAppend(Waiting, h3, FLAG);
    DumpRunAppend(DUMP_START, [], FLAG);
    DumpRunAppend(DUMP_START, h1, b);
    DumpRunAppend(DUMP_START, h2, ESC);
    DumpRunAppend(DUMP_START, h3, FLAG);
    OneByteIsBad(b);
    GoodsAppend([], Finish([b]));
    var none: seq<PyEvent> := [];
    var nothing: seq<seq<byte>> := [];
    assert none + none == none && none + [Finish([b])] == [Finish([b])] && nothing + nothing == nothing;
  }

  lemma OneByteIsBad(b: byte)
    ensures Finish([b]).Bad?
  {
    hide FcsBytes, CheckSequence;
  }
}
