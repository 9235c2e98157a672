/** The mutable objects of the Python ends, each tied to what the bytes it has read mean. */
module PythonObjects {
  import opened Crc
  import opened Hdlc
  import opened PythonPeers

  /** A frame being collected. */
  class Frame {
    var finished: bool
    var error: bool
    var escaped: bool
    var data: seq<byte>
    var crc: seq<byte>

    constructor ()
      ensures !finished && !error && Collected() == Reading([], false)
    {
      finished, error, escaped := false, false, false;
      data, crc := [], [];
    }

    ghost function Collected(): Reading
      reads this
    {
      Reading(data, escaped)
    }

    method Add(b: byte)
      modifies this
      ensures Collected() == AddByte(old(Collected()), b)
      ensures finished == old(finished) && error == old(error)
    {
      if b == ESC {
        escaped := true;
      } else if escaped {
        escaped := false;
        data := data + [b ^ INVERT];
      } else {
        data := data + [b];
      }
    }

    method Finish()
      modifies this
      ensures finished && crc == Tail(old(data)) && data == Front(old(data)) && error == old(error)
    {
      crc := Tail(data);
      data := Front(data);
      finished := true;
    }

    method CheckCRC() returns (res: bool)
      modifies this
      ensures res == (crc == FcsBytes(CheckSequence(data), true))
      ensures error == (old(error) || !res)
      ensures data == old(data) && crc == old(crc) && finished == old(finished)
    {
      res := crc == FcsBytes(CheckSequence(data), true);
      if !res {
        error := true;
      }
    }
  }

  /** The frame receiver and encoder. */
  class SimpleHdlc {
    const mode: Reporting
    const decodes: Decoder
    var currentFrame: Frame?
    var lastFrame: Frame?
    // What the frame and error callbacks have been given.
    var reports: seq<PyEvent>

    ghost predicate Valid()
      reads this, currentFrame
    {
      currentFrame != null && !currentFrame.finished ==> !currentFrame.error
    }

    /** What the object is doing, as far as its current frame tells. */
    ghost function State(): ReaderState
      reads this, currentFrame
    {
      if currentFrame == null then Between
      else if currentFrame.finished then Held(currentFrame.data, currentFrame.error)
      else Within(currentFrame.Collected())
    }

    constructor (mode: Reporting, decodes: Decoder)
      ensures Valid() && this.mode == mode && this.decodes == decodes
      ensures Reader(State(), reports, false) == NEW_READER && currentFrame == null
    {
      this.mode, this.decodes := mode, decodes;
      currentFrame, lastFrame := null, null;
      reports := [];
    }

    /** One byte in; tells whether it finished a frame, good or bad, and whether a callback raised. */
    method ReadByteAndProc(b: byte) returns (done: bool, raised: bool)
      requires Valid()
      modifies this, currentFrame
      ensures Valid()
      ensures Reader(State(), reports, raised)
           == ReaderStep(mode, decodes, Reader(old(State()), old(reports), false), b)
      ensures currentFrame != null ==> currentFrame == old(currentFrame) || fresh(currentFrame)
      ensures done <==> |reports| > |old(reports)|
      ensures done || raised ==> lastFrame == old(currentFrame) && lastFrame != null && lastFrame.finished
    {
      hide AddByte, FcsBytes, CheckSequence;
      if b == FLAG {
        if currentFrame == null || |currentFrame.data| < 1 {
          currentFrame := new Frame();
        } else {
          currentFrame.Finish();
          var ok := currentFrame.CheckCRC();
        }
      } else if currentFrame == null {
        return false, false;
      } else if !currentFrame.finished {
        currentFrame.Add(b);
      }

      if currentFrame.finished && !currentFrame.error {
        raised := OnFrame(currentFrame);
        if raised {
          return false, true;
        }
        currentFrame := null;
        return true, false;
      } else if currentFrame.finished {
        raised := OnError(currentFrame);
        if raised {
          return false, true;
        }
        currentFrame := null;
        return true, false;
      }
      return false, false;
    }

    /** Hands a good frame to its callback. */
    method OnFrame(frame: Frame) returns (raised: bool)
      modifies `lastFrame, `reports
      ensures raised == (mode == Text && !decodes(frame.data)) && lastFrame == frame
      ensures reports == if raised then old(reports) else old(reports) + [Good(frame.data)]
    {
      lastFrame := frame;
      if mode.Text? && !decodes(frame.data) {
        return true;
      }
      reports := reports + [Good(frame.data)];
      return false;
    }

    /** Hands a bad one to the error callback, as text. */
    method OnError(frame: Frame) returns (raised: bool)
      modifies `lastFrame, `reports
      ensures raised == !decodes(frame.data) && lastFrame == frame
      ensures reports == if raised then old(reports) else old(reports) + [Bad(frame.data)]
    {
      lastFrame := frame;
      if !decodes(frame.data) {
        return true;
      }
      reports := reports + [Bad(frame.data)];
      return false;
    }

    /** Bytes in, in order; an exception leaves the rest unread. */
    method ProcessBytes(bs: seq<byte>) returns (raised: bool)
      requires Valid()
      modifies this, currentFrame
      ensures Valid()
      ensures Reader(State(), reports, raised)
           == ReaderRun(mode, decodes, Reader(old(State()), old(reports), false), bs)
    {
      hide ReaderStep;
      ghost var r := Reader(State(), reports, false);
      raised := false;
      for i := 0 to |bs|
        invariant Valid() && !raised
        invariant Reader(State(), reports, false) == ReaderRun(mode, decodes, r, bs[..i])
        invariant currentFrame != null ==> currentFrame == old(currentFrame) || fresh(currentFrame)
      {
        assert bs[..i + 1] == bs[..i] + [bs[i]];
        ReaderRunAppend(mode, decodes, r, bs[..i], bs[i]);
        var done;
        done, raised := ReadByteAndProc(bs[i]);
        if raised {
          RaisedRunStays(mode, decodes, r, bs[..i + 1], bs[i + 1..]);
          assert bs[..i + 1] + bs[i + 1..] == bs;
          return;
        }
      }
      assert bs[..|bs|] == bs;
    }

    /** The reader thread of a new object: what it reports of the bytes it is given before an exception
        ends it. */
    static method ReadStream(mode: Reporting, decodes: Decoder, bs: seq<byte>)
      returns (accepted: seq<seq<byte>>, raised: bool)
      ensures accepted == PyReported(mode, decodes, bs)
      ensures raised <==> !NoneRaises(mode, decodes, PyRun(Waiting, bs).1)
    {
      hide *;
      var hdlc := new SimpleHdlc(mode, decodes);
      raised := hdlc.ProcessBytes(bs);
      ReaderReports(mode, decodes, bs);
      ReportedStops(mode, decodes, PyRun(Waiting, bs).1);
      ReportedMeans(mode, decodes, bs);
      accepted := Goods(hdlc.reports);
    }

    /** The same bytes as the sender on the Pi puts on the line. */
    static method EncodeFrame(payload: seq<byte>) returns (data: seq<byte>)
      ensures data == Encode(payload, true)
    {
      hide Escape, FcsBytes, CheckSequence;
      data := [FLAG];
      var crc := FcsBytes(CheckSequence(payload), true);
      var bs := payload + crc;
      for i := 0 to |bs|
        invariant data == [FLAG] + EscapeAll(bs[..i])
      {
        assert bs[..i + 1][..i] == bs[..i];
        EscapeUnfold(bs[i]);
        if bs[i] == FLAG || bs[i] == ESC {
          data := data + [ESC];
          data := data + [bs[i] ^ INVERT];
        } else {
          data := data + [bs[i]];
        }
      }
      assert bs[..|bs|] == bs;
      data := data + [FLAG];
    }
  }

  lemma ReportedMeans(mode: Reporting, decodes: Decoder, bs: seq<byte>)
    ensures PyReported(mode, decodes, bs) == Goods(Reported(mode, decodes, PyRun(Waiting, bs).1))
  {
  }

  lemma {:induction false} RaisedRunStays(mode: Reporting, decodes: Decoder, r: Reader, a: seq<byte>, b: seq<byte>)
    requires ReaderRun(mode, decodes, r, a).raised
    ensures ReaderRun(mode, decodes, r, a + b) == ReaderRun(mode, decodes, r, a)
  {
    hide ReaderStep;
    if b == [] {
      assert a + b == a;
    } else {
      var n := |b| - 1;
      RaisedRunStays(mode, decodes, r, a, b[..n]);
      assert a + b == (a + b[..n]) + [b[n]];
      ReaderRunAppend(mode, decodes, r, a + b[..n], b[n]);
    }
  }

  lemma EscapeUnfold(b: byte)
    ensures Escape(b) == if b == FLAG || b == ESC then [ESC] + [b ^ INVERT] else [b]
  {
  }

  lemma DumpStepCases(s: DumpState, b: byte)
    ensures DumpStep(s, b) ==
      if !s.inFrame then (if b == FLAG then DumpState(true, s.frame) else s, [])
      else if b == FLAG then
        (if s.frame.data == [] then (s, [])
         else (DumpState(false, Reading([], s.frame.escaped)), [PythonPeers.Finish(s.frame.data)]))
      else if b == ESC then (DumpState(true, Reading(s.frame.data, true)), [])
      else if s.frame.escaped then (DumpState(true, Reading(s.frame.data + [b ^ INVERT], false)), [])
      else (DumpState(true, Reading(s.frame.data + [b], false)), [])
  {
    hide PythonPeers.Finish;
  }

  lemma FinishVerdict(data: seq<byte>)
    ensures PythonPeers.Finish(data).Good? <==> Tail(data) == FcsBytes(CheckSequence(Front(data)), true)
  {
    hide FcsBytes, CheckSequence;
  }

  /** The parser of captured streams, a script with module-level state. */
  class DumpParser {
    var framePos: int
    var frameData: seq<byte>
    var rxCRC: seq<byte>
    var escVal: bool
    var okFrameCount: int
    var badFrameCount: int
    ghost var heard: seq<byte>

    ghost predicate Valid()
      reads this
    {
      var r := DumpRun(DUMP_START, heard);
      && (framePos == 0 || framePos == 1)
      && r.0 == DumpState(framePos == 1, Reading(frameData, escVal))
      && okFrameCount == |Goods(r.1)|
      && badFrameCount == |r.1| - |Goods(r.1)|
    }

    constructor ()
      ensures Valid() && heard == []
    {
      framePos, frameData, rxCRC, escVal := 0, [], [], false;
      okFrameCount, badFrameCount, heard := 0, 0, [];
      new;
      DumpNothing();
    }

    method Add(b: byte)
      requires Valid()
      modifies this
      ensures Valid() && heard == old(heard) + [b]
    {
      hide DumpRun, Goods, FcsBytes, CheckSequence, PythonPeers.Finish, DumpStep;
      DumpStepCases(DumpRun(DUMP_START, heard).0, b);
      FinishVerdict(frameData);
      DumpRunAppend(DUMP_START, heard, b);
      ghost var events := DumpRun(DUMP_START, heard).1;
      assert events + [] == events;
      heard := heard + [b];
      if framePos == 0 {
        if b == FLAG {
          framePos := 1;
        }
      } else if b == FLAG {
        if |frameData| == 0 {
          return;
        }
        GoodsAppend(events, PythonPeers.Finish(frameData));
        rxCRC := Tail(frameData);
        var calculatedCRC := FcsBytes(CheckSequence(Front(frameData)), true);
        if rxCRC != calculatedCRC {
          badFrameCount := badFrameCount + 1;
        } else {
          okFrameCount := okFrameCount + 1;
        }
        framePos := 0;
        frameData := [];
      } else if b == ESC {
        escVal := true;
      } else if escVal {
        frameData := frameData + [b ^ INVERT];
        escVal := false;
      } else {
        frameData := frameData + [b];
      }
    }
  }
}
