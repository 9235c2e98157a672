/** The file-receive part of the command handler, fed by its link receiver. */
module CommandHandler {
  import opened Wrappers
  import opened Crc
  import opened CommandFrame
  import opened FileTransfer
  import opened FileCoverage
  import MiniHdlc

  /** What the command string says, field by field; parsing the text is outside the model. */
  datatype Header =
    | FileStart(fileName: Option<string>, fileType: Option<string>, fileLen: Option<int>)
    | FileBlock(index: Option<int>)
    | FileEnd(blockCount: Option<int>)
    | Unrelated

  /** Reading a command string. */
  type Parser = seq<byte> -> Header

  /** The allocator: what a request of some length made while the k-th frame is handled gives. */
  type Heap = (nat, int) -> Option<seq<byte>>

  ghost predicate Honest(heap: Heap) {
    forall k: nat, n: int :: heap(k, n).Some? ==> |heap(k, n).value| == n
  }

  /** The step the k-th frame makes the handler take. */
  function Decode(parse: Parser, heap: Heap, k: nat, frame: seq<byte>): Command {
    var (command, params) := Split(frame);
    match parse(command)
    case FileStart(fileName, fileType, fileLen) =>
      Start(fileName, fileType, fileLen, command, if fileLen.Some? then heap(k, fileLen.value) else None)
    case FileBlock(index) => Block(index, params)
    case FileEnd(blockCount) => End(blockCount)
    case Unrelated => Other
  }

  /** The steps a run of frames makes it take, the first of them being the k-th. */
  function Commands(parse: Parser, heap: Heap, k: nat, frames: seq<seq<byte>>): (cs: seq<Command>)
    ensures |cs| == |frames|
  {
    seq(|frames|, i requires 0 <= i < |frames| => Decode(parse, heap, k + i, frames[i]))
  }

  lemma DecodeAllocates(parse: Parser, heap: Heap, k: nat, frame: seq<byte>)
    requires Honest(heap)
    ensures Allocates(Decode(parse, heap, k, frame))
  {
    hide Split;
  }

  lemma CommandsAllocate(parse: Parser, heap: Heap, k: nat, frames: seq<seq<byte>>)
    requires Honest(heap)
    ensures AllAllocate(Commands(parse, heap, k, frames))
  {
    hide Decode, Allocates, Honest;
    forall i | 0 <= i < |frames| ensures Allocates(Commands(parse, heap, k, frames)[i]) {
      DecodeAllocates(parse, heap, k + i, frames[i]);
    }
  }

  lemma RunAppend(cs: seq<Command>, c: Command)
    requires AllAllocate(cs) && Allocates(c)
    ensures AllAllocate(cs + [c]) && Run(INITIAL, cs + [c]) == Step(Run(INITIAL, cs), c)
  {
    hide Step, Allocates;
    assert (cs + [c])[..|cs + [c]| - 1] == cs;
  }

  class CommandHandler {
    const parse: Parser
    const miniHDLC: MiniHdlc.MiniHdlc
    var receivedFileName: string
    var receivedFileType: string
    var receivedFileStartInfo: seq<byte>
    var receivedFileData: array?<byte>
    var receivedFileBufSize: int
    var receivedFileBytesRx: int
    var receivedBlockCount: int
    // Replies sent and files handed to the sockets, in order.
    var out: seq<Output>
    // Every command and timeout handled so far.
    ghost var handled: seq<Command>

    /** The handler is where its history has brought it, whatever the history. */
    ghost predicate Valid()
      reads this, receivedFileData
    {
      && AllAllocate(handled)
      && State() == Run(INITIAL, handled)
    }

    ghost function State(): State
      reads this, receivedFileData
    {
      FileTransfer.State.State(if receivedFileData == null then None else Some(receivedFileData[..]),
        receivedFileBufSize, receivedFileBytesRx, receivedBlockCount,
        receivedFileName, receivedFileType, receivedFileStartInfo, out)
    }

    lemma OutOfRun()
      requires Valid()
      ensures AllAllocate(handled) && out == Run(INITIAL, handled).out
    {
    }

    constructor (parse: Parser)
      ensures Valid() && handled == [] && this.parse == parse
      ensures fresh(miniHDLC) && fresh(miniHDLC.rxBuffer) && miniHDLC.Valid() && miniHDLC.heard == []
      ensures miniHDLC.ReceiverValid() && miniHDLC.received == []
      ensures miniHDLC.bigEndianCRC && !miniHDLC.bitwiseHDLC && receivedFileData == null
    {
      hide *;
      this.parse := parse;
      miniHDLC := new MiniHdlc.MiniHdlc(true, false);
      receivedFileName, receivedFileType, receivedFileStartInfo := "", "", [];
      receivedFileData := null;
      receivedFileBufSize, receivedFileBytesRx, receivedBlockCount := 0, 0, 0;
      out, handled := [], [];
      new;
      miniHDLC.ValidIsReceiverValid();
      StartState();
    }

    /** A state in which nothing has been handled. */
    lemma StartState()
      requires receivedFileName == "" && receivedFileType == "" && receivedFileStartInfo == []
      requires receivedFileData == null && receivedFileBufSize == receivedFileBytesRx == receivedBlockCount == 0
      requires out == [] && handled == []
      ensures Valid()
    {
    }

    /** Bytes from the serial line: the link receiver takes them, and each frame it delivers is handled
        at once. */
    method HandleHDLCReceivedChars(bytes: seq<byte>, heap: Heap)
      requires Valid() && miniHDLC.ReceiverValid() && Honest(heap)
      requires receivedFileData != miniHDLC.rxBuffer
      modifies this, receivedFileData, miniHDLC, miniHDLC.rxBuffer
      ensures Valid() && miniHDLC.ReceiverValid() && receivedFileData != miniHDLC.rxBuffer
      ensures receivedFileData == old(receivedFileData) || receivedFileData == null || fresh(receivedFileData)
      ensures miniHDLC.heard == old(miniHDLC.heard) + bytes
      ensures old(miniHDLC.received) <= miniHDLC.received
      ensures var k := |old(miniHDLC.received)|;
        handled == old(handled) + Commands(parse, heap, k, miniHDLC.received[k..])
    {
      hide Run, Decode, Allocates, Honest, State, Valid, Commands, MiniHdlc.MiniHdlc.ReceiverValid;
      ghost var start := miniHDLC.received;
      ghost var k := |start|;
      NoCommands(parse, heap, k);
      assert start[k..] == [];
      for i := 0 to |bytes|
        invariant Valid() && miniHDLC.ReceiverValid() && receivedFileData != miniHDLC.rxBuffer
        invariant receivedFileData == old(receivedFileData) || receivedFileData == null || fresh(receivedFileData)
        invariant miniHDLC.heard == old(miniHDLC.heard) + bytes[..i]
        invariant start <= miniHDLC.received
        invariant handled == old(handled) + Commands(parse, heap, k, miniHDLC.received[k..])
      {
        ghost var before := miniHDLC.received;
        HandleOne(bytes[i], heap);
        assert bytes[..i + 1] == bytes[..i] + [bytes[i]];
        if miniHDLC.received != before {
          ghost var frame := miniHDLC.received[|before|];
          assert miniHDLC.received[k..] == before[k..] + [frame];
          CommandsAppend(parse, heap, k, before[k..], frame);
        }
      }
      assert bytes[..|bytes|] == bytes;
    }

    /** One byte from the line; the frame it may complete is handled before the next byte. */
    method HandleOne(b: byte, heap: Heap)
      requires Valid() && miniHDLC.ReceiverValid() && Honest(heap)
      requires receivedFileData != miniHDLC.rxBuffer
      modifies this, receivedFileData, miniHDLC, miniHDLC.rxBuffer
      ensures Valid() && miniHDLC.ReceiverValid() && receivedFileData != miniHDLC.rxBuffer
      ensures receivedFileData == old(receivedFileData) || receivedFileData == null || fresh(receivedFileData)
      ensures miniHDLC.heard == old(miniHDLC.heard) + [b]
      ensures
        || (miniHDLC.received == old(miniHDLC.received) && handled == old(handled))
        || exists frame :: miniHDLC.received == old(miniHDLC.received) + [frame]
             && handled == old(handled) + [Decode(parse, heap, |old(miniHDLC.received)|, frame)]
    {
      hide Run, Decode, Allocates, Honest, State, Valid, Commands, MiniHdlc.MiniHdlc.ReceiverValid;
      var n := |miniHDLC.received|;
      miniHDLC.HandleChar(b);
      if |miniHDLC.received| > n {
        var frame := miniHDLC.received[n];
        assert miniHDLC.received == old(miniHDLC.received) + [frame];
        HdlcFrameRx(miniHDLC.rxBuffer, |frame|, heap, n, frame);
      }
    }

    /** A frame from the link, the k-th, in the receiver's buffer with a zero behind it. */
    method HdlcFrameRx(buffer: array<byte>, frameLength: nat, heap: Heap, k: nat, ghost frame: seq<byte>)
      requires Valid() && Honest(heap)
      requires |frame| == frameLength < buffer.Length && buffer[..frameLength + 1] == frame + [0]
      modifies this, receivedFileData
      ensures Valid() && handled == old(handled) + [Decode(parse, heap, k, frame)]
      ensures receivedFileData == old(receivedFileData) || receivedFileData == null || fresh(receivedFileData)
    {
      hide Run, Allocates, Step, Split, SplitMemory;
      ghost var c := Decode(parse, heap, k, frame);
      DecodeAllocates(parse, heap, k, frame);
      RunAppend(handled, c);
      assert buffer[..frameLength + 1] <= buffer[..];
      TerminatorContains(buffer[..], frame);
      var (command, params) := SplitMemory(buffer[..], frameLength);
      match parse(command) {
        case FileStart(fileName, fileType, fileLen) =>
          HandleFileStart(fileName, fileType, fileLen, command, if fileLen.Some? then heap(k, fileLen.value) else None);
        case FileBlock(index) =>
          HandleFileBlock(index, params);
        case FileEnd(blockCount) =>
          HandleFileEnd(blockCount);
        case Unrelated =>
          StepOther(Run(INITIAL, handled));
      }
      handled := handled + [c];
    }

    method HandleFileStart(fileName: Option<string>, fileType: Option<string>, fileLen: Option<int>, command: seq<byte>,
                           memory: Option<seq<byte>>)
      requires Sound(State())
      requires Allocates(Start(fileName, fileType, fileLen, command, memory))
      modifies this
      ensures State() == Step(old(State()), Start(fileName, fileType, fileLen, command, memory))
      ensures handled == old(handled)
      ensures receivedFileData == old(receivedFileData) || receivedFileData == null || fresh(receivedFileData)
    {
      hide Step, Sound;
      StepStart(State(), fileName, fileType, fileLen, command, memory);
      if fileName.None? {
        return;
      }
      receivedFileName := fileName.value;
      if fileType.None? {
        return;
      }
      receivedFileType := fileType.value;
      if fileLen.None? {
        return;
      }
      if fileLen.value <= 0 {
        return;
      }
      receivedFileStartInfo := command;
      receivedFileData := null;
      if memory.Some? {
        receivedFileData := new byte[fileLen.value](i requires 0 <= i < fileLen.value => memory.value[i]);
        assert receivedFileData[..] == memory.value;
      }
      receivedFileBytesRx := 0;
      receivedBlockCount := 0;
      if receivedFileData != null {
        receivedFileBufSize := fileLen.value;
      } else {
        receivedFileBufSize := 0;
      }
    }

    method HandleFileBlock(index: Option<int>, data: seq<byte>)
      requires Sound(State())
      modifies this, receivedFileData
      ensures State() == Step(old(State()), Block(index, data))
      ensures handled == old(handled) && receivedFileData == old(receivedFileData)
    {
      if receivedFileData == null {
        return;
      }
      if index.None? {
        return;
      }
      var blockStart := index.value;
      if blockStart < 0 {
        return;
      }
      if blockStart + |data| > receivedFileBufSize {
        return;
      }
      forall i | 0 <= i < |data| {
        receivedFileData[blockStart + i] := data[i];
      }
      assert receivedFileData[..] == Put(old(receivedFileData[..]), blockStart, data);
      receivedFileBytesRx := receivedFileBytesRx + |data|;
      receivedBlockCount := receivedBlockCount + 1;
    }

    method HandleFileEnd(count: Option<int>)
      requires Sound(State())
      modifies this
      ensures State() == Step(old(State()), End(count)) && handled == old(handled)
      ensures receivedFileData == old(receivedFileData) || receivedFileData == null
    {
      if receivedFileData == null {
        return;
      }
      var blockCount := 0;
      if count.Some? {
        blockCount := count.value;
      }
      if blockCount != receivedBlockCount {
        out := out + [NotAck(receivedBlockCount, blockCount)];
      } else {
        out := out + [Ack(receivedBlockCount, blockCount)];
        var isFirmware := IsFirmware(receivedFileType);
        out := out + [HandOver(receivedFileStartInfo, receivedFileData[..], receivedFileBytesRx, isFirmware)];
      }
      FileReceiveCleardown();
    }

    /** The timeout check of the service loop; the clock is the caller's. */
    method Service(timedOut: bool)
      requires Valid()
      modifies this
      ensures Valid() && handled == old(handled) + if timedOut then [Timeout] else []
      ensures timedOut ==> receivedFileData == null && receivedFileBufSize == 0
      ensures !timedOut ==> receivedFileData == old(receivedFileData) && State() == old(State())
      ensures out == old(out)
    {
      hide Run;
      if timedOut {
        RunAppend(handled, Timeout);
        handled := handled + [Timeout];
      }
      if receivedFileData != null {
        if timedOut {
          FileReceiveCleardown();
        }
      }
    }

    method FileReceiveCleardown()
      modifies this
      ensures State() == Cleared(old(State())) && handled == old(handled) && receivedFileData == null
    {
      receivedFileData := null;
      receivedFileBufSize := 0;
    }

    method GetFileReceiveStatus() returns (inProgress: bool, fileLen: int, filePos: int)
      requires Valid()
      ensures inProgress == InProgress(Run(INITIAL, handled))
      ensures inProgress ==> fileLen == Run(INITIAL, handled).size && filePos == Run(INITIAL, handled).bytesRx
      ensures inProgress <==> receivedFileBufSize != 0 && receivedFileBufSize != receivedFileBytesRx
    {
      fileLen, filePos := 0, 0;
      if receivedFileBufSize == 0 || receivedFileBufSize == receivedFileBytesRx {
        return false, fileLen, filePos;
      }
      return true, receivedFileBufSize, receivedFileBytesRx;
    }
  }

  /** After a timeout the status query says that nothing is in progress. */
  method StatusAfterTimeout(handler: CommandHandler) returns (inProgress: bool)
    requires handler.Valid()
    modifies handler
    ensures !inProgress && handler.Valid() && handler.out == old(handler.out)
  {
    hide *;
    handler.Service(true);
    var fileLen, filePos;
    inProgress, fileLen, filePos := handler.GetFileReceiveStatus();
  }

  lemma StepStart(s: State, fileName: Option<string>, fileType: Option<string>, fileLen: Option<int>,
                  info: seq<byte>, memory: Option<seq<byte>>)
    requires Sound(s) && Allocates(Start(fileName, fileType, fileLen, info, memory))
    ensures var t := Step(s, Start(fileName, fileType, fileLen, info, memory));
      if fileName.None? then t == s
      else if fileType.None? then t == s.(name := fileName.value)
      else if fileLen.None? || fileLen.value <= 0 then t == s.(name := fileName.value, kind := fileType.value)
      else t == FileTransfer.State.State(memory, if memory.Some? then fileLen.value else 0, 0, 0,
                                         fileName.value, fileType.value, info, s.out)
  {
  }

  lemma StepOther(s: State)
    requires Sound(s)
    ensures Step(s, Other) == s && Sound(s)
  {
  }

  lemma CommandsAppend(parse: Parser, heap: Heap, k: nat, frames: seq<seq<byte>>, frame: seq<byte>)
    ensures Commands(parse, heap, k, frames + [frame]) ==
      Commands(parse, heap, k, frames) + [Decode(parse, heap, k + |frames|, frame)]
  {
    hide Decode;
  }

  lemma NoCommands(parse: Parser, heap: Heap, k: nat)
    ensures Commands(parse, heap, k, []) == []
  {
  }
}
