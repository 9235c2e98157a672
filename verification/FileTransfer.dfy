/** The file-receive state machine of the command handler. */
module FileTransfer {
  import opened Wrappers
  import opened Crc

  /** The decoded commands, and the timeout found by the service loop. A start carries the outcome of
      the allocation it may make: nothing, or memory with whatever contents it came with. */
  datatype Command =
    | Start(fileName: Option<string>, fileType: Option<string>, fileLen: Option<int>, info: seq<byte>,
            memory: Option<seq<byte>>)
    | Block(index: Option<int>, data: seq<byte>)
    | End(count: Option<int>)
    | Timeout
    | Other

  predicate Starts(c: Command) {
    c.Start? && c.fileName.Some? && c.fileType.Some? && c.fileLen.Some? && c.fileLen.value > 0
  }

  /** Allocated memory has the length asked for. */
  predicate Allocates(c: Command) {
    Starts(c) && c.memory.Some? ==> |c.memory.value| == c.fileLen.value
  }

  datatype Output =
    | Ack(received: int, expected: int)
    | NotAck(received: int, expected: int)
    | HandOver(info: seq<byte>, file: seq<byte>, length: int, firmware: bool)

  datatype State = State(buffer: Option<seq<byte>>, size: int, bytesRx: int, blockCount: int,
                         name: string, kind: string, info: seq<byte>, out: seq<Output>)

  const INITIAL := State(None, 0, 0, 0, "", "", [], [])

  function LowerCase(s: string): (t: string)
    ensures |t| == |s|
  {
    seq(|s|, i requires 0 <= i < |s| => if 'A' <= s[i] <= 'Z' then (s[i] as int + 32) as char else s[i])
  }

  predicate IsFirmware(kind: string) { LowerCase(kind) == "firmware" }

  predicate Accepts(s: State, c: Command) {
    && c.Block? && s.buffer.Some? && c.index.Some?
    && 0 <= c.index.value && c.index.value + |c.data| <= s.size
  }

  /** A copy of data into the buffer. */
  function Put(buffer: seq<byte>, at: int, data: seq<byte>): (r: seq<byte>)
    requires 0 <= at && at + |data| <= |buffer|
    ensures |r| == |buffer|
  {
    buffer[..at] + data + buffer[at + |data|..]
  }

  function Cleared(s: State): State {
    s.(buffer := None, size := 0)
  }

  /** The buffer is as long as the size says. */
  predicate Sound(s: State) {
    if s.buffer.Some? then |s.buffer.value| == s.size && s.size > 0 else s.size == 0
  }

  function Step(s: State, c: Command): (t: State)
    requires Sound(s) && Allocates(c)
    ensures Sound(t)
  {
    match c
    case Start(fileName, fileType, fileLen, info, memory) =>
      if fileName.None? then s else
      var s1 := s.(name := fileName.value);
      if fileType.None? then s1 else
      var s2 := s1.(kind := fileType.value);
      if fileLen.None? || fileLen.value <= 0 then s2 else
      s2.(info := info, buffer := memory, size := if memory.Some? then fileLen.value else 0,
          bytesRx := 0, blockCount := 0)
    case Block(index, data) =>
      if Accepts(s, c) then
        s.(buffer := Some(Put(s.buffer.value, index.value, data)), bytesRx := s.bytesRx + |data|,
           blockCount := s.blockCount + 1)
      else s
    case End(count) =>
      if s.buffer.None? then s else
      var expected := if count.Some? then count.value else 0;
      Cleared(s.(out := s.out +
        if expected != s.blockCount then [NotAck(s.blockCount, expected)]
        else [Ack(s.blockCount, expected), HandOver(s.info, s.buffer.value, s.bytesRx, IsFirmware(s.kind))]))
    case Timeout => Cleared(s)
    case Other => s
  }

  predicate AllAllocate(cs: seq<Command>) {
    forall i :: 0 <= i < |cs| ==> Allocates(cs[i])
  }

  function Run(s: State, cs: seq<Command>): (t: State)
    requires Sound(s) && AllAllocate(cs)
    ensures Sound(t)
  {
    if cs == [] then s else Step(Run(s, cs[..|cs| - 1]), cs[|cs| - 1])
  }

  // ---- What the buffer holds ----

  datatype Piece = Piece(at: int, data: seq<byte>)

  /** Pieces stored one after the other; later ones cover earlier ones. */
  predicate Fit(pieces: seq<Piece>, size: int) {
    forall i :: 0 <= i < |pieces| ==> 0 <= pieces[i].at && pieces[i].at + |pieces[i].data| <= size
  }

  function Overlay(memory: seq<byte>, pieces: seq<Piece>): (r: seq<byte>)
    requires Fit(pieces, |memory|)
    ensures |r| == |memory|
  {
    if pieces == [] then memory
    else
      var last := pieces[|pieces| - 1];
      Put(Overlay(memory, pieces[..|pieces| - 1]), last.at, last.data)
  }

  function TotalLength(pieces: seq<Piece>): nat {
    if pieces == [] then 0 else TotalLength(pieces[..|pieces| - 1]) + |pieces[|pieces| - 1].data|
  }

  lemma TotalAppend(pieces: seq<Piece>, p: Piece)
    ensures TotalLength(pieces + [p]) == TotalLength(pieces) + |p.data|
  {
    assert (pieces + [p])[..|pieces + [p]| - 1] == pieces;
  }

  lemma FitAppend(pieces: seq<Piece>, p: Piece, size: int)
    ensures Fit(pieces + [p], size) <==> Fit(pieces, size) && 0 <= p.at && p.at + |p.data| <= size
  {
    assert (pieces + [p])[|pieces|] == p;
    assert forall i :: 0 <= i < |pieces| ==> (pieces + [p])[i] == pieces[i];
  }

  lemma OverlayAppend(memory: seq<byte>, pieces: seq<Piece>, p: Piece)
    requires Fit(pieces, |memory|) && 0 <= p.at && p.at + |p.data| <= |memory|
    ensures Fit(pieces + [p], |memory|)
    ensures Overlay(memory, pieces + [p]) == Put(Overlay(memory, pieces), p.at, p.data)
  {
    hide Put;
    FitAppend(pieces, p, |memory|);
    assert (pieces + [p])[..|pieces + [p]| - 1] == pieces;
  }

  lemma NoPieces()
    ensures TotalLength([]) == 0
  {
  }

  lemma NothingOverlaid(memory: seq<byte>)
    ensures Fit([], |memory|) && Overlay(memory, []) == memory
  {
  }
}
