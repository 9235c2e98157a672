/** What every command does in every run, and what a run has come to, read off its commands alone. */
module TransferHistory {
  import opened Wrappers
  import opened Crc
  import opened FileTransfer
  import opened FileCoverage

  lemma RunNext(cs: seq<Command>, c: Command)
    requires AllAllocate(cs) && Allocates(c)
    ensures AllAllocate(cs + [c]) && Run(INITIAL, cs + [c]) == Step(Run(INITIAL, cs), c)
  {
    hide Step, Allocates, Sound;
    assert (cs + [c])[..|cs + [c]| - 1] == cs;
  }

  // ---- One command ----

  /** A start with a name, a type and a positive length opens a transfer in the memory it got, or closes
      the one there was when it got none; any other start only renames. */
  lemma StartTaken(cs: seq<Command>, fileName: Option<string>, fileType: Option<string>, fileLen: Option<int>,
                   info: seq<byte>, memory: Option<seq<byte>>)
    requires AllAllocate(cs) && (fileLen.Some? && memory.Some? ==> |memory.value| == fileLen.value)
    ensures AllAllocate(cs + [Start(fileName, fileType, fileLen, info, memory)])
    ensures var s := Run(INITIAL, cs); var t := Run(INITIAL, cs + [Start(fileName, fileType, fileLen, info, memory)]);
      && t.out == s.out
      && (fileName == None ==> t == s)
      && (fileName != None ==> t.name == fileName.value)
      && t.kind == (if fileName != None && fileType != None then fileType.value else s.kind)
      && (if fileName != None && fileType != None && fileLen != None && fileLen.value >= 1 then
            && t.buffer == memory && t.size == (if memory == None then 0 else fileLen.value)
            && t.bytesRx == 0 && t.blockCount == 0 && t.info == info
          else
            && t.buffer == s.buffer && t.size == s.size && t.bytesRx == s.bytesRx
            && t.blockCount == s.blockCount && t.info == s.info)
  {
    hide Run, IsFirmware;
    RunNext(cs, Start(fileName, fileType, fileLen, info, memory));
  }

  /** A block is stored at its index, and both counters move, exactly when there is a buffer and the block
      lies within it; otherwise, a missing index included, nothing changes. */
  lemma BlockStored(cs: seq<Command>, index: Option<int>, data: seq<byte>)
    requires AllAllocate(cs)
    ensures AllAllocate(cs + [Block(index, data)])
    ensures var s, t := Run(INITIAL, cs), Run(INITIAL, cs + [Block(index, data)]);
      if s.buffer != None && index != None && 0 <= index.value && index.value + |data| <= |s.buffer.value| then
        && t.buffer != None && |t.buffer.value| == |s.buffer.value|
        && (forall j :: 0 <= j < |s.buffer.value| ==>
              t.buffer.value[j]
              == if index.value <= j < index.value + |data| then data[j - index.value] else s.buffer.value[j])
        && t == s.(buffer := t.buffer, bytesRx := s.bytesRx + |data|, blockCount := s.blockCount + 1)
      else t == s
  {
    hide Run, IsFirmware;
    RunNext(cs, Block(index, data));
  }

  /** The end of a transfer that has a buffer: acknowledged and handed over exactly when the count it names,
      or none, is the number of blocks stored, and refused otherwise; the transfer is closed either way. */
  lemma EndAnswered(cs: seq<Command>, count: Option<int>)
    requires AllAllocate(cs)
    ensures AllAllocate(cs + [End(count)])
    ensures var s, t := Run(INITIAL, cs), Run(INITIAL, cs + [End(count)]);
      var expected := if count == None then 0 else count.value;
      if s.buffer == None then t == s
      else
        && t == s.(buffer := None, size := 0, out := t.out)
        && t.out == s.out +
             if expected == |Taken(cs)| then
               [Ack(expected, expected), HandOver(s.info, s.buffer.value, s.bytesRx, FirmwareType(s.kind))]
             else [NotAck(|Taken(cs)|, expected)]
  {
    hide Run, Taken, FirmwareType, IsFirmware, Received, OpenLength, LastType, LastInfo, Answers, TotalLength;
    RunNext(cs, End(count));
    RunIsPast(cs);
    FirmwareLetters(Run(INITIAL, cs).kind);
  }

  /** A type that says firmware, letter by letter. */
  predicate FirmwareType(kind: string) {
    && |kind| == 8
    && (kind[0] == 'f' || kind[0] == 'F') && (kind[1] == 'i' || kind[1] == 'I')
    && (kind[2] == 'r' || kind[2] == 'R') && (kind[3] == 'm' || kind[3] == 'M')
    && (kind[4] == 'w' || kind[4] == 'W') && (kind[5] == 'a' || kind[5] == 'A')
    && (kind[6] == 'r' || kind[6] == 'R') && (kind[7] == 'e' || kind[7] == 'E')
  }

  lemma FirmwareLetters(kind: string)
    ensures IsFirmware(kind) <==> FirmwareType(kind)
  {
    var lower := LowerCase(kind);
    var word := "firmware";
    if |kind| == 8 {
      LetterIn(kind, 0, 'f');
      LetterIn(kind, 1, 'i');
      LetterIn(kind, 2, 'r');
      LetterIn(kind, 3, 'm');
      LetterIn(kind, 4, 'w');
      LetterIn(kind, 5, 'a');
      LetterIn(kind, 6, 'r');
      LetterIn(kind, 7, 'e');
      assert lower == word <==> forall i :: 0 <= i < 8 ==> lower[i] == word[i];
    }
  }

  lemma LetterIn(s: string, i: nat, c: char)
    requires i < |s| && 'a' <= c <= 'z'
    ensures LowerCase(s)[i] == c <==> s[i] == c || s[i] as int == c as int - 32
  {
  }

  /** Without a buffer and without a good start nothing is answered and none comes to be. */
  lemma {:induction false} StaysClosed(cs: seq<Command>, ds: seq<Command>)
    requires AllAllocate(cs) && AllAllocate(ds) && Run(INITIAL, cs).buffer == None
    requires forall i :: 0 <= i < |ds| ==> !Starts(ds[i])
    ensures AllAllocate(cs + ds)
    ensures var s, t := Run(INITIAL, cs), Run(INITIAL, cs + ds);
      t.out == s.out && t.buffer == None && t.size == 0
  {
    hide Run, Allocates;
    if ds == [] {
      assert cs + ds == cs;
    } else {
      var n := |ds| - 1;
      StaysClosed(cs, ds[..n]);
      RunNext(cs + ds[..n], ds[n]);
      assert cs + ds == (cs + ds[..n]) + [ds[n]];
    }
  }

  /** After a timeout everything up to the next good start goes unanswered, and there is no buffer. */
  lemma TimeoutForgets(cs: seq<Command>, ds: seq<Command>)
    requires AllAllocate(cs) && AllAllocate(ds)
    requires forall i :: 0 <= i < |ds| ==> !Starts(ds[i])
    ensures AllAllocate(cs + [Timeout]) && AllAllocate(cs + [Timeout] + ds)
    ensures var t := Run(INITIAL, cs + [Timeout] + ds);
      t.out == Run(INITIAL, cs).out && t.buffer == None && t.size == 0
  {
    hide Run, Allocates, Starts;
    TimeoutAllocates();
    RunNext(cs, Timeout);
    StaysClosed(cs + [Timeout], ds);
  }

  lemma TimeoutAllocates()
    ensures Allocates(Timeout)
  {
  }

  // ---- A whole run ----

  /** The length of the file being received, if one is. */
  function OpenLength(cs: seq<Command>): Option<int> {
    if cs == [] then None else
    var before := OpenLength(cs[..|cs| - 1]);
    match cs[|cs| - 1]
    case Start(fileName, fileType, fileLen, info, memory) =>
      if fileName != None && fileType != None && fileLen != None && fileLen.value >= 1
      then if memory != None then fileLen else None
      else before
    case Block(index, data) => before
    case End(count) => None
    case Timeout => None
    case Other => before
  }

  /** The last start with a name, a type and a positive length. */
  function LastGood(cs: seq<Command>): Option<Command> {
    if cs == [] then None else
    match cs[|cs| - 1]
    case Start(fileName, fileType, fileLen, info, memory) =>
      if fileName != None && fileType != None && fileLen != None && fileLen.value >= 1
      then Some(cs[|cs| - 1])
      else LastGood(cs[..|cs| - 1])
    case _ => LastGood(cs[..|cs| - 1])
  }

  /** The blocks since then that lay within the file being received. */
  function Taken(cs: seq<Command>): seq<Piece> {
    if cs == [] then [] else
    var before := cs[..|cs| - 1];
    match cs[|cs| - 1]
    case Start(fileName, fileType, fileLen, info, memory) =>
      if fileName != None && fileType != None && fileLen != None && fileLen.value >= 1 then [] else Taken(before)
    case Block(index, data) =>
      var length := OpenLength(before);
      if length != None && index != None && 0 <= index.value && index.value + |data| <= length.value
      then Taken(before) + [Piece(index.value, data)]
      else Taken(before)
    case _ => Taken(before)
  }

  /** The type named by the last start that named a file and a type. */
  function LastType(cs: seq<Command>): string {
    if cs == [] then "" else
    match cs[|cs| - 1]
    case Start(fileName, fileType, fileLen, info, memory) =>
      if fileName != None && fileType != None then fileType.value else LastType(cs[..|cs| - 1])
    case _ => LastType(cs[..|cs| - 1])
  }

  function LastInfo(cs: seq<Command>): seq<byte> {
    if LastGood(cs).Some? && LastGood(cs).value.Start? then LastGood(cs).value.info else []
  }

  /** What memory holds at a position after these pieces: the last that covers it decides. */
  function ByteAt(memory: seq<byte>, pieces: seq<Piece>, j: nat): byte
    requires j < |memory|
  {
    if pieces == [] then memory[j] else
    var last := pieces[|pieces| - 1];
    if last.at <= j < last.at + |last.data| then last.data[j - last.at]
    else ByteAt(memory, pieces[..|pieces| - 1], j)
  }

  function Contents(memory: seq<byte>, pieces: seq<Piece>): (r: seq<byte>)
    ensures |r| == |memory|
  {
    seq(|memory|, j requires 0 <= j < |memory| => ByteAt(memory, pieces, j))
  }

  lemma ContentsAppend(memory: seq<byte>, pieces: seq<Piece>, p: Piece)
    requires 0 <= p.at && p.at + |p.data| <= |memory|
    ensures Contents(memory, pieces + [p]) == Put(Contents(memory, pieces), p.at, p.data)
  {
    assert (pieces + [p])[..|pieces + [p]| - 1] == pieces;
  }

  lemma NoContents(memory: seq<byte>)
    ensures Contents(memory, []) == memory
  {
  }

  lemma {:induction false} OverlayIsContents(memory: seq<byte>, pieces: seq<Piece>)
    requires Fit(pieces, |memory|)
    ensures Overlay(memory, pieces) == Contents(memory, pieces)
  {
    hide Overlay, Contents, Put, Fit;
    if pieces == [] {
      NothingOverlaid(memory);
      NoContents(memory);
    } else {
      var before, p := pieces[..|pieces| - 1], pieces[|pieces| - 1];
      assert pieces == before + [p];
      FitAppend(before, p, |memory|);
      OverlayIsContents(memory, before);
      OverlayAppend(memory, before, p);
      ContentsAppend(memory, before, p);
    }
  }

  /** The buffer, as the commands tell it. */
  function Received(cs: seq<Command>): Option<seq<byte>> {
    var start := LastGood(cs);
    if OpenLength(cs) != None && start.Some? && start.value.Start? && start.value.memory.Some?
    then Some(Contents(start.value.memory.value, Taken(cs)))
    else None
  }

  /** The answers given and files handed over. */
  function Answers(cs: seq<Command>): seq<Output> {
    if cs == [] then [] else
    var before := cs[..|cs| - 1];
    var file := Received(before);
    if !cs[|cs| - 1].End? || file == None then Answers(before) else
    var count := cs[|cs| - 1].count;
    var expected, taken := if count == None then 0 else count.value, Taken(before);
    Answers(before) +
      if expected == |taken| then
        [Ack(expected, expected),
         HandOver(LastInfo(before), file.value, TotalLength(taken), FirmwareType(LastType(before)))]
      else [NotAck(|taken|, expected)]
  }

  /** What the state of a run is, by its commands alone. */
  predicate Past(s: State, cs: seq<Command>) {
    && s.buffer == Received(cs)
    && s.size == (if OpenLength(cs) == None then 0 else OpenLength(cs).value)
    && s.bytesRx == TotalLength(Taken(cs)) && s.blockCount == |Taken(cs)|
    && s.kind == LastType(cs) && s.info == LastInfo(cs) && s.out == Answers(cs)
    && (s.buffer == None <==> OpenLength(cs) == None)
  }

  /** What one more command does to the readings of the history. */
  lemma HistoryNext(cs: seq<Command>, c: Command)
    ensures var all := cs + [c];
      match c
      case Start(fileName, fileType, fileLen, info, memory) =>
        && LastType(all) == (if fileName != None && fileType != None then fileType.value else LastType(cs))
        && Answers(all) == Answers(cs)
        && (if fileName != None && fileType != None && fileLen != None && fileLen.value >= 1 then
              && LastGood(all) == Some(c) && Taken(all) == []
              && OpenLength(all) == (if memory != None then fileLen else None)
            else SameTransfer(cs, all))
      case Block(index, data) =>
        && LastType(all) == LastType(cs) && Answers(all) == Answers(cs)
        && LastGood(all) == LastGood(cs) && OpenLength(all) == OpenLength(cs)
        && Taken(all) == Taken(cs) +
             if OpenLength(cs) != None && index != None && 0 <= index.value
                && index.value + |data| <= OpenLength(cs).value
             then [Piece(index.value, data)] else []
      case End(count) =>
        LastType(all) == LastType(cs) && LastGood(all) == LastGood(cs) && Taken(all) == Taken(cs)
        && OpenLength(all) == None
      case Timeout =>
        LastType(all) == LastType(cs) && LastGood(all) == LastGood(cs) && Taken(all) == Taken(cs)
        && OpenLength(all) == None && Answers(all) == Answers(cs)
      case Other => LastType(all) == LastType(cs) && Answers(all) == Answers(cs) && SameTransfer(cs, all)
  {
    hide Received, FirmwareType;
    assert (cs + [c])[..|cs + [c]| - 1] == cs;
  }

  predicate SameTransfer(a: seq<Command>, b: seq<Command>) {
    LastGood(a) == LastGood(b) && Taken(a) == Taken(b) && OpenLength(a) == OpenLength(b)
  }

  lemma AnswersNext(cs: seq<Command>, count: Option<int>)
    ensures Answers(cs + [End(count)]) == if Received(cs) == None then Answers(cs) else
      Answers(cs) +
        var expected := if count == None then 0 else count.value;
        if expected == |Taken(cs)| then
          [Ack(expected, expected),
           HandOver(LastInfo(cs), Received(cs).value, TotalLength(Taken(cs)), FirmwareType(LastType(cs)))]
        else [NotAck(|Taken(cs)|, expected)]
  {
    hide Received, FirmwareType, TotalLength;
    assert (cs + [End(count)])[..|cs + [End(count)]| - 1] == cs;
  }

  lemma PastStart(s: State, cs: seq<Command>, c: Command)
    requires Sound(s) && Past(s, cs) && c.Start? && Allocates(c)
    ensures Past(Step(s, c), cs + [c])
  {
    hide Contents, OpenLength, LastGood, Taken, LastType, Answers;
    HistoryNext(cs, c);
    NoPieces();
    if Starts(c) && c.memory.Some? {
      NoContents(c.memory.value);
    }
  }

  lemma PastBlock(s: State, cs: seq<Command>, c: Command)
    requires Sound(s) && Past(s, cs) && c.Block?
    ensures Past(Step(s, c), cs + [c])
  {
    hide Contents, OpenLength, LastGood, Taken, LastType, Answers, Put, TotalLength;
    HistoryNext(cs, c);
    if Accepts(s, c) {
      var p := Piece(c.index.value, c.data);
      TotalAppend(Taken(cs), p);
      ContentsAppend(LastGood(cs).value.memory.value, Taken(cs), p);
    } else {
      assert Taken(cs) + [] == Taken(cs);
    }
  }

  lemma PastEnd(s: State, cs: seq<Command>, c: Command)
    requires Sound(s) && Past(s, cs) && (c.End? || c.Timeout? || c.Other?)
    ensures Past(Step(s, c), cs + [c])
  {
    hide Contents, OpenLength, LastGood, Taken, LastType, Answers, TotalLength, IsFirmware, FirmwareType;
    HistoryNext(cs, c);
    FirmwareLetters(s.kind);
    if c.End? {
      AnswersNext(cs, c.count);
    }
  }

  lemma NothingPast()
    ensures Past(INITIAL, [])
  {
  }

  /** The state after any run is what its commands tell: the file being received and its contents, both
      counters, the type, the start information and every answer. */
  lemma {:induction false} RunIsPast(cs: seq<Command>)
    requires AllAllocate(cs)
    ensures Past(Run(INITIAL, cs), cs)
  {
    hide Past, Step, Allocates;
    if cs == [] {
      NothingPast();
    } else {
      var n := |cs| - 1;
      RunIsPast(cs[..n]);
      var s, c := Run(INITIAL, cs[..n]), cs[n];
      assert cs == cs[..n] + [c];
      match c
      case Start(fileName, fileType, fileLen, info, memory) => PastStart(s, cs[..n], c);
      case Block(index, data) => PastBlock(s, cs[..n], c);
      case _ => PastEnd(s, cs[..n], c);
    }
  }

  /** The status query, by the commands alone: a transfer is in progress exactly when a file is being
      received and the bytes taken are not as many as it is long. */
  lemma StatusTold(cs: seq<Command>)
    requires AllAllocate(cs)
    ensures InProgress(Run(INITIAL, cs)) <==> OpenLength(cs) != None && TotalLength(Taken(cs)) != OpenLength(cs).value
  {
    hide Run, TotalLength, Taken, Received, Answers, LastType, LastInfo;
    RunIsPast(cs);
    OpenIsPositive(cs);
  }

  lemma {:induction false} OpenIsPositive(cs: seq<Command>)
    ensures OpenLength(cs) != None ==> OpenLength(cs).value >= 1
  {
    if cs != [] {
      OpenIsPositive(cs[..|cs| - 1]);
    }
  }

  lemma {:induction false} TakenFits(cs: seq<Command>, size: int)
    requires OpenLength(cs) == Some(size)
    ensures Fit(Taken(cs), size)
  {
    hide Fit;
    NothingFits(size);
    if cs != [] {
      var n := |cs| - 1;
      if OpenLength(cs[..n]) == Some(size) {
        TakenFits(cs[..n], size);
      }
      if cs[n].Block? && cs[n].index != None {
        FitAppend(Taken(cs[..n]), Piece(cs[n].index.value, cs[n].data), size);
      }
    }
  }

  lemma NothingFits(size: int)
    ensures Fit([], size)
  {
  }

  /** Over every run: there is no buffer exactly when the size is zero, the counters count the blocks taken
      in the current transfer, and the buffer is their overlay, in the order they came. */
  lemma {:induction false} RunInvariant(cs: seq<Command>)
    requires AllAllocate(cs)
    ensures var s := Run(INITIAL, cs); var start := LastGood(cs); var pieces := Taken(cs);
      && (s.buffer.None? <==> s.size == 0)
      && s.blockCount == |pieces| && s.bytesRx == TotalLength(pieces)
      && (s.buffer.Some? ==>
           && start.Some? && start.value.Start? && start.value.memory.Some?
           && s.size == |start.value.memory.value|
           && Fit(pieces, s.size)
           && s.buffer.value == Overlay(start.value.memory.value, pieces))
  {
    hide Run, TotalLength, Taken, Answers, LastType, LastInfo, OpenLength, LastGood, Overlay, Contents, Fit;
    RunIsPast(cs);
    OpenIsPositive(cs);
    var s := Run(INITIAL, cs);
    if s.buffer.Some? {
      TakenFits(cs, s.size);
      OverlayIsContents(LastGood(cs).value.memory.value, Taken(cs));
    }
  }

  /** In any run: without overlap the count says "complete" exactly when every byte of the file has been
      written; once every byte is written, exactly when no accepted blocks overlap; and when it says so,
      bytes are missing exactly when blocks overlap. */
  lemma {:induction false} CompleteByCounting(cs: seq<Command>)
    requires AllAllocate(cs) && Run(INITIAL, cs).buffer.Some?
    ensures var s, pieces := Run(INITIAL, cs), Taken(cs);
      var counted, written := !InProgress(s), Covered(pieces) == Range(0, s.size);
      && (Disjoint(pieces) ==> (counted <==> written))
      && (written ==> (counted <==> Disjoint(pieces)))
      && (counted ==> (written <==> Disjoint(pieces)))
  {
    hide Run, Taken, Covered, Range, Overlay, Disjoint;
    RunInvariant(cs);
    var s, pieces := Run(INITIAL, cs), Taken(cs);
    CoveredCount(pieces);
    CoveredFits(pieces, s.size);
    RangeSize(0, s.size);
    if |Covered(pieces)| == |Range(0, s.size)| {
      SubsetOfEqualSize(Covered(pieces), Range(0, s.size));
    }
  }
}
