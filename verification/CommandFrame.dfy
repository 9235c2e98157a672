/** Splitting a received frame into its command string and its binary parameters. */
module CommandFrame {
  import opened Crc

  /** Size of the command string buffer; the copy keeps one place for the terminator. */
  const CMD_STR_MAX: nat := 2000

  /** Length of the string that starts a buffer: the bytes before its first zero. */
  function StringLength(view: seq<byte>): (n: nat)
    ensures n <= |view|
    ensures forall i :: 0 <= i < n ==> view[i] != 0
    ensures n < |view| ==> view[n] == 0
  {
    if view == [] || view[0] == 0 then 0 else 1 + StringLength(view[1..])
  }

  /** How much of the string the bounded copy takes. */
  function CommandLength(view: seq<byte>): (n: nat)
    ensures n <= |view| && n < CMD_STR_MAX
  {
    if StringLength(view) < CMD_STR_MAX then StringLength(view) else CMD_STR_MAX - 1
  }

  /** Command and parameters as read out of the memory that starts with a frame of some length. */
  function SplitMemory(memory: seq<byte>, length: nat): (seq<byte>, seq<byte>)
    requires length <= |memory|
  {
    var n := CommandLength(memory);
    (memory[..n], if length - n - 1 < 0 then [] else memory[n + 1..length])
  }

  /** Command and parameters of a frame. */
  function Split(frame: seq<byte>): (seq<byte>, seq<byte>) {
    SplitMemory(frame + [0], |frame|)
  }

  lemma StringLengthUnique(view: seq<byte>, n: nat)
    requires n < |view| && view[n] == 0 && forall i :: 0 <= i < n ==> view[i] != 0
    ensures StringLength(view) == n
  {
    var m := StringLength(view);
    assert !(n < m);
    assert !(m < n);
  }

  lemma {:induction false} StringLengthLocal(memory: seq<byte>, view: seq<byte>)
    requires view <= memory && view != [] && view[|view| - 1] == 0
    ensures StringLength(memory) == StringLength(view) < |view|
  {
    var n := StringLength(view);
    assert !(n == |view|);
    StringLengthUnique(memory, n);
  }

  /** With the zero that the receiver writes behind a frame, whatever else the buffer holds: the string
      ends inside frame and zero, and the same command and parameters come out. */
  lemma TerminatorContains(memory: seq<byte>, frame: seq<byte>)
    requires frame + [0] <= memory
    ensures StringLength(memory) <= |frame|
    ensures SplitMemory(memory, |frame|) == Split(frame)
  {
    hide StringLength;
    StringLengthLocal(memory, frame + [0]);
    var view := frame + [0];
    var n := CommandLength(memory);
    assert memory[..n] == view[..n];
    if n + 1 <= |frame| {
      assert memory[n + 1..|frame|] == view[n + 1..|frame|];
    }
  }

  /** A frame without a zero is read as itself exactly when that zero is there. */
  lemma TerminatorNeeded(memory: seq<byte>, frame: seq<byte>)
    requires frame <= memory && |frame| < |memory| && 0 !in frame && |frame| < CMD_STR_MAX - 1
    ensures SplitMemory(memory, |frame|).0 == frame <==> memory[|frame|] == 0
  {
    hide StringLength;
    forall i | 0 <= i < |frame| ensures memory[i] != 0 {
      assert frame[i] in frame;
    }
    if memory[|frame|] == 0 {
      StringLengthUnique(memory, |frame|);
    }
  }

  /** Whatever the frame holds, command and parameters are a prefix and a suffix of it, apart. */
  lemma SplitStaysInside(frame: seq<byte>)
    ensures var (command, params) := Split(frame);
      && |command| + |params| <= |frame|
      && command == frame[..|command|] && params == frame[|frame| - |params|..]
      && 0 !in command
      && (params != [] ==> |command| + 1 + |params| == |frame|)
  {
    var view := frame + [0];
    assert view[|frame|] == 0;
    assert StringLength(view) <= |frame|;
  }

  /** A header and its parameters are told apart exactly when the header fits the command buffer. */
  lemma SplitIffShort(header: seq<byte>, params: seq<byte>)
    requires 0 !in header
    ensures Split(header + [0] + params) == (header, params) <==> |header| < 2000
  {
    var frame := header + [0] + params;
    var view := frame + [0];
    StringLengthUnique(view, |header|);
    if |header| < CMD_STR_MAX {
      assert view[..|header|] == header && view[|header| + 1..|frame|] == params;
    } else {
      assert |Split(frame).0| == CMD_STR_MAX - 1;
    }
  }

  /** A frame with no zero inside is all command. */
  lemma SplitWithoutZero(header: seq<byte>)
    requires 0 !in header
    ensures Split(header) == (header, []) <==> |header| < 2000
  {
    var view := header + [0];
    StringLengthUnique(view, |header|);
    assert view[..|header|] == header;
  }

  /** A longer header is cut: its first 1999 characters are the command, and all that follows the next one
      is taken for parameters. */
  lemma LongHeaderCut(header: seq<byte>, rest: seq<byte>)
    requires 0 !in header && |header| >= 2000
    ensures Split(header + rest) == (header[..1999], header[2000..] + rest)
  {
    hide StringLength;
    var frame := header + rest;
    var view := frame + [0];
    forall i | 0 <= i < |header| ensures view[i] != 0 {
      assert view[i] == header[i] && header[i] in header;
    }
    assert view[..1999] == header[..1999] && view[2000..|frame|] == header[2000..] + rest;
  }
}
