/** The whole upload: image, blocks, frames and bytes on a noisy line, back to blocks and to a file. */
module UploadLink {
  import opened Wrappers
  import opened Crc
  import opened Hdlc
  import opened HdlcReception
  import opened CommandFrame
  import opened CommandHandler
  import opened FileTransfer
  import opened TransferHistory
  import opened Upload
  import TwoBitErrors

  // ---- A noisy line ----

  /** What the line does to a frame: nothing, swallow it, or change bits between its flags. */
  datatype Fate = Intact | Lost | Damaged(body: seq<byte>)

  datatype Transmission = Transmission(payload: seq<byte>, fate: Fate)

  /** The damage is one the check sequence is made for. */
  ghost predicate Plausible(t: Transmission) {
    && |t.payload| + 2 < MAX_FRAME
    && (t.fate.Damaged? ==> Damage(Body(t.payload, true), t.fate.body))
  }

  function Arriving(t: Transmission): seq<byte> {
    match t.fate
    case Intact => Encode(t.payload, true)
    case Lost => []
    case Damaged(body) => [FLAG] + EscapeAll(body) + [FLAG]
  }

  function Line(ts: seq<Transmission>): seq<byte> {
    if ts == [] then [] else Line(ts[..|ts| - 1]) + Arriving(ts[|ts| - 1])
  }

  function Survivors(ts: seq<Transmission>): seq<seq<byte>> {
    if ts == [] then [] else
    Survivors(ts[..|ts| - 1]) + if ts[|ts| - 1].fate.Intact? then [ts[|ts| - 1].payload] else []
  }

  ghost predicate AllPlausible(ts: seq<Transmission>) {
    forall i :: 0 <= i < |ts| ==> Plausible(ts[i])
  }

  lemma DamagedFrame(h: seq<byte>, t: Transmission)
    requires Segment(h) == [] && Plausible(t) && t.fate.Damaged?
    ensures Segment(h + Arriving(t)) == []
    ensures Delivered(h + Arriving(t), true) == Delivered(h, true)
  {
    hide Segment, EscapeAll, Events, Damage, Body, Payloads;
    HearFlag(h, true);
    NothingBuffered(h, true);
    PayloadsAppend(Events(h, true), Runt);
    CorruptFrameNotDelivered(h + [FLAG], t.payload, t.fate.body);
    HearFrame(h + [FLAG], t.fate.body, true);
    assert h + Arriving(t) == (h + [FLAG]) + EscapeAll(t.fate.body) + [FLAG];
  }

  /** Exactly the frames the line left alone are delivered, in order. */
  lemma {:induction false} NoisyLine(h: seq<byte>, ts: seq<Transmission>)
    requires Segment(h) == [] && AllPlausible(ts)
    ensures Segment(h + Line(ts)) == []
    ensures Delivered(h + Line(ts), true) == Delivered(h, true) + Survivors(ts)
  {
    hide Segment, Delivered, Encode, Plausible, Flushed, Buffer;
    if ts == [] {
      assert h + [] == h;
    } else {
      var n := |ts| - 1;
      var t, before := ts[n], h + Line(ts[..n]);
      NoisyLine(h, ts[..n]);
      assert h + Line(ts) == before + Arriving(t);
      match t.fate
      case Intact =>
        PlausibleFits(t);
        Resynchronises(before, t.payload, true);
        NothingBuffered(before, true);
      case Lost =>
        assert before + [] == before;
      case Damaged(body) =>
        DamagedFrame(before, t);
    }
  }

  lemma PlausibleFits(t: Transmission)
    requires Plausible(t)
    ensures |t.payload| + 2 < MAX_FRAME
  {
  }

  // ---- Headers ----

  /** Writing a header as text. */
  type Renderer = Header -> seq<byte>

  /** Rendering this header and parsing it again gives it back; the text holds no zero and fits the
      command buffer. */
  ghost predicate Carries(render: Renderer, parse: Parser, h: Header) {
    parse(render(h)) == h && 0 !in render(h) && |render(h)| < CMD_STR_MAX
  }

  /** A file to upload: its name and type, its blocks, how headers are written, and whether the start and
      end frames close their header with a zero. */
  datatype Job = Job(name: string, kind: string, file: Sliced, render: Renderer, closed: bool)

  function StartHeader(u: Job): Header {
    FileStart(Some(u.name), Some(u.kind), Some(|u.file.image|))
  }

  function BlockHeader(u: Job, i: nat): Header
    requires i < NumBlocks(u.file)
  {
    FileBlock(Some(u.file.cuts[i]))
  }

  function EndHeader(u: Job): Header {
    FileEnd(Some(NumBlocks(u.file)))
  }

  /** Every header of this upload survives rendering and parsing. */
  ghost predicate CarriesUpload(u: Job, parse: Parser) {
    && Carries(u.render, parse, StartHeader(u))
    && Carries(u.render, parse, EndHeader(u))
    && forall i: nat :: i < NumBlocks(u.file) ==> Carries(u.render, parse, BlockHeader(u, i))
  }

  // ---- The uploaders ----

  function Closing(u: Job): seq<byte> {
    if u.closed then [0] else []
  }

  function StartFrame(u: Job): seq<byte> {
    u.render(StartHeader(u)) + Closing(u)
  }

  function BlockFrame(u: Job, i: nat): seq<byte>
    requires i < NumBlocks(u.file)
  {
    u.render(BlockHeader(u, i)) + [0] + BlockAt(u.file, i).data
  }

  function EndFrame(u: Job): seq<byte> {
    u.render(EndHeader(u)) + Closing(u)
  }

  function BlockFrames(u: Job, r: seq<nat>): (fs: seq<seq<byte>>)
    requires Indices(r, u.file)
    ensures |fs| == |r|
  {
    seq(|r|, k requires 0 <= k < |r| => BlockFrame(u, r[k]))
  }

  function Counting(n: nat): (r: seq<nat>)
    ensures |r| == n
  {
    seq(n, i requires 0 <= i < n => i)
  }

  /** All frames of an upload in order. */
  function AllFrames(u: Job): seq<seq<byte>> {
    [StartFrame(u)] + BlockFrames(u, Counting(NumBlocks(u.file))) + [EndFrame(u)]
  }

  /** The upload of the tools: a kernel image in blocks of 1024. */
  function ToolsJob(render: Renderer, image: seq<byte>): Job {
    Job("kernel.img", "firmware", Uniform(image, 1024), render, true)
  }

  lemma ToolsBlock(render: Renderer, image: seq<byte>, i: nat)
    requires i < BlockCount(|image|, 1024)
    ensures i * 1024 <= |image|
    ensures var start := i * 1024; var end := if start + 1024 <= |image| then start + 1024 else |image|;
      BlockFrame(ToolsJob(render, image), i) == render(FileBlock(Some(start))) + [0] + image[start..end]
  {
    hide Uniform;
    UniformBlock(image, 1024, i);
    CountCovers(|image|, 1024);
    var f, start := Uniform(image, 1024), i * 1024;
    var end := if start + 1024 <= |image| then start + 1024 else |image|;
    assert BlockAt(f, i).data == image[f.cuts[i]..f.cuts[i + 1]];
  }

  lemma ToolsEnds(render: Renderer, image: seq<byte>)
    ensures var u, n := ToolsJob(render, image), BlockCount(|image|, 1024);
      && NumBlocks(u.file) == n
      && StartFrame(u) == render(FileStart(Some("kernel.img"), Some("firmware"), Some(|image|))) + [0]
      && EndFrame(u) == render(FileEnd(Some(n))) + [0]
  {
    hide Uniform, BlockCount, NumBlocks;
  }

  /** The frames in the order the tools send them. */
  method SendFile(render: Renderer, image: seq<byte>) returns (sent: seq<seq<byte>>)
    ensures sent == AllFrames(ToolsJob(render, image))
  {
    ghost var u := ToolsJob(render, image);
    hide ToolsJob, StartFrame, BlockFrame, EndFrame, NumBlocks;
    ToolsEnds(render, image);
    var startFrame := render(FileStart(Some("kernel.img"), Some("firmware"), Some(|image|))) + [0];
    sent := [startFrame];
    var blockMaxSize := 1024;
    var numBlocks := |image| / blockMaxSize + if |image| % blockMaxSize == 0 then 0 else 1;
    for i := 0 to numBlocks
      invariant |sent| == i + 1 && sent[0] == startFrame
      invariant forall k :: 0 <= k < i ==> sent[k + 1] == BlockFrame(u, k)
    {
      ToolsBlock(render, image, i);
      var blockStart := i * blockMaxSize;
      var blockEnd := if blockStart + blockMaxSize <= |image| then blockStart + blockMaxSize else |image|;
      var blockToSend := image[blockStart..blockEnd];
      var dataFrame := render(FileBlock(Some(blockStart))) + [0] + blockToSend;
      sent := sent + [dataFrame];
    }
    assert sent == [startFrame] + BlockFrames(u, Counting(numBlocks));
    var endFrame := render(FileEnd(Some(numBlocks))) + [0];
    sent := sent + [endFrame];
  }

  /** The uploader on the ESP32: blocks come one by one, from a file or a request, of any length. */
  class ChunkUploader {
    const render: Renderer
    var blockCount: nat
    var sent: seq<seq<byte>>

    constructor (render: Renderer)
      ensures this.render == render && blockCount == 0 && sent == []
    {
      this.render := render;
      blockCount := 0;
      sent := [];
    }

    /** One block; the first is preceded by the start record, the final one followed by the end record. */
    method UploadCommonBlockHandler(fileType: string, fileName: string, fileLength: int, index: nat,
                                    data: seq<byte>, finalBlock: bool)
      modifies this
      ensures blockCount == old(blockCount) + 1
      ensures sent == old(sent)
        + (if old(blockCount) == 0 then [render(FileStart(Some(fileName), Some(fileType), Some(fileLength)))] else [])
        + [render(FileBlock(Some(index))) + [0] + data]
        + (if finalBlock then [render(FileEnd(Some(old(blockCount) + 1)))] else [])
    {
      if blockCount == 0 {
        sent := sent + [render(FileStart(Some(fileName), Some(fileType), Some(fileLength)))];
      }
      sent := sent + [render(FileBlock(Some(index))) + [0] + data];
      blockCount := blockCount + 1;
      if finalBlock {
        sent := sent + [render(FileEnd(Some(blockCount)))];
      }
    }
  }

  /** A new one given the blocks of a file in order has sent the frames of the upload. */
  method SendChunks(u: Job) returns (sent: seq<seq<byte>>)
    requires NumBlocks(u.file) > 0 && !u.closed
    ensures sent == AllFrames(u)
  {
    var uploader := new ChunkUploader(u.render);
    var n := NumBlocks(u.file);
    assert StartFrame(u) == u.render(StartHeader(u)) && EndFrame(u) == u.render(EndHeader(u));
    assert Counting(0) == [];
    for i := 0 to n
      invariant uploader.blockCount == i && fresh(uploader) && uploader.render == u.render
      invariant uploader.sent == (if i == 0 then [] else [StartFrame(u)]) + BlockFrames(u, Counting(i))
                                 + (if i == n then [EndFrame(u)] else [])
    {
      hide StartFrame, EndFrame;
      assert BlockFrames(u, Counting(i + 1)) == BlockFrames(u, Counting(i)) + [BlockFrame(u, i)];
      uploader.UploadCommonBlockHandler(u.kind, u.name, |u.file.image|, u.file.cuts[i], BlockAt(u.file, i).data,
                                        i == n - 1);
    }
    sent := uploader.sent;
  }

  // ---- What the handler makes of the frames ----

  function StartCommand(u: Job, memory: seq<byte>): Command {
    Start(Some(u.name), Some(u.kind), Some(|u.file.image|), u.render(StartHeader(u)), Some(memory))
  }

  lemma HeaderAlone(u: Job, header: seq<byte>)
    requires 0 !in header && |header| < CMD_STR_MAX
    ensures Split(header + Closing(u)) == (header, [])
  {
    hide Split;
    if u.closed {
      SplitIffShort(header, []);
      assert header + [0] + [] == header + [0];
    } else {
      SplitWithoutZero(header);
      assert header + [] == header;
    }
  }

  lemma DecodesStart(u: Job, parse: Parser, heap: Heap, memory: seq<byte>)
    requires Carries(u.render, parse, StartHeader(u)) && heap(0, |u.file.image|) == Some(memory)
    ensures Decode(parse, heap, 0, StartFrame(u)) == StartCommand(u, memory)
  {
    hide Split;
    HeaderAlone(u, u.render(StartHeader(u)));
  }

  lemma DecodesBlock(u: Job, parse: Parser, heap: Heap, k: nat, i: nat)
    requires i < NumBlocks(u.file) && Carries(u.render, parse, BlockHeader(u, i))
    ensures Decode(parse, heap, k, BlockFrame(u, i)) == BlockCommand(u.file, i)
  {
    hide Split;
    SplitIffShort(u.render(BlockHeader(u, i)), BlockAt(u.file, i).data);
  }

  lemma DecodesEnd(u: Job, parse: Parser, heap: Heap, k: nat)
    requires Carries(u.render, parse, EndHeader(u))
    ensures Decode(parse, heap, k, EndFrame(u)) == End(Some(NumBlocks(u.file)))
  {
    hide Split;
    HeaderAlone(u, u.render(EndHeader(u)));
  }

  /** The frames that carry these blocks are read as exactly the exchange of these blocks. */
  lemma FramesAreExchange(u: Job, parse: Parser, heap: Heap, memory: seq<byte>, r: seq<nat>)
    requires CarriesUpload(u, parse) && |memory| == |u.file.image| && Indices(r, u.file)
    requires heap(0, |u.file.image|) == Some(memory)
    ensures Allocates(StartCommand(u, memory))
    ensures Commands(parse, heap, 0,
                     [StartFrame(u)] + BlockFrames(u, r) + [EndFrame(u)])
         == Exchange(StartCommand(u, memory), u.file, r)
  {
    hide Decode, StartFrame, BlockFrame, EndFrame, BlockCommand, NumBlocks, Carries;
    DecodesStart(u, parse, heap, memory);
    DecodesEnd(u, parse, heap, |r| + 1);
    forall k | 0 <= k < |r|
      ensures Decode(parse, heap, k + 1, BlockFrame(u, r[k])) == BlockCommand(u.file, r[k])
    {
      DecodesBlock(u, parse, heap, k + 1, r[k]);
    }
  }

  // ---- End to end ----

  /** One block sent, and what becomes of it on the line. */
  datatype Sending = Sending(index: nat, fate: Fate)

  function Sent(sends: seq<Sending>): (r: seq<nat>)
    ensures |r| == |sends| && forall k :: 0 <= k < |r| ==> r[k] == sends[k].index
  {
    seq(|sends|, k requires 0 <= k < |sends| => sends[k].index)
  }

  function Arrived(sends: seq<Sending>): seq<nat> {
    if sends == [] then [] else
    var last := sends[|sends| - 1];
    Arrived(sends[..|sends| - 1]) + if last.fate.Intact? then [last.index] else []
  }

  function Transmissions(u: Job, sends: seq<Sending>): (ts: seq<Transmission>)
    requires Indices(Sent(sends), u.file)
    ensures |ts| == |sends|
    ensures forall k :: 0 <= k < |sends| ==>
      ts[k] == Transmission(BlockFrame(u, Sent(sends)[k]), sends[k].fate)
  {
    seq(|sends|, k requires 0 <= k < |sends| => Transmission(BlockFrame(u, Sent(sends)[k]), sends[k].fate))
  }

  lemma {:induction false} ArrivedWereSent(sends: seq<Sending>, f: Sliced)
    requires Indices(Sent(sends), f)
    ensures Indices(Arrived(sends), f)
    ensures forall i :: i in Arrived(sends) ==> i in Sent(sends)
    ensures NoRepeats(Sent(sends)) ==> NoRepeats(Arrived(sends))
  {
    hide NoRepeats, NumBlocks;
    if sends == [] {
      NothingRepeats();
    } else {
      var n := |sends| - 1;
      assert Sent(sends) == Sent(sends[..n]) + [sends[n].index];
      ArrivedWereSent(sends[..n], f);
      NoRepeatsAppend(Sent(sends[..n]), sends[n].index);
      NoRepeatsAppend(Arrived(sends[..n]), sends[n].index);
      assert Arrived(sends[..n]) + [] == Arrived(sends[..n]);
    }
  }

  lemma NothingRepeats()
    ensures NoRepeats([])
  {
  }

  lemma {:induction false} SurvivorsAreArrived(u: Job, sends: seq<Sending>)
    requires Indices(Sent(sends), u.file)
    ensures Indices(Arrived(sends), u.file)
    ensures Survivors(Transmissions(u, sends)) == BlockFrames(u, Arrived(sends))
  {
    hide BlockFrame, NumBlocks;
    ArrivedWereSent(sends, u.file);
    if sends == [] {
    } else {
      var n := |sends| - 1;
      assert Sent(sends)[..n] == Sent(sends[..n]);
      SurvivorsAreArrived(u, sends[..n]);
      var ts := Transmissions(u, sends);
      assert ts[..n] == Transmissions(u, sends[..n]);
      assert ts[n] == Transmission(BlockFrame(u, sends[n].index), sends[n].fate);
      if sends[n].fate.Intact? {
        assert Arrived(sends) == Arrived(sends[..n]) + [sends[n].index];
        assert BlockFrames(u, Arrived(sends))
            == BlockFrames(u, Arrived(sends[..n])) + [BlockFrame(u, sends[n].index)];
      } else {
        assert Arrived(sends) == Arrived(sends[..n]);
      }
    }
  }

  lemma {:induction false} SurvivorsConcat(a: seq<Transmission>, b: seq<Transmission>)
    ensures Survivors(a + b) == Survivors(a) + Survivors(b)
  {
    if b == [] {
      assert a + b == a;
    } else {
      var n := |b| - 1;
      SurvivorsConcat(a, b[..n]);
      assert (a + b)[..|a + b| - 1] == a + b[..n];
    }
  }

  lemma SurvivorOne(t: Transmission)
    ensures Survivors([t]) == if t.fate.Intact? then [t.payload] else []
  {
    assert [t][..0] == [];
  }

  /** What the uploader's frames become on the line: start and end arrive, blocks meet their fates. */
  function Transfer(u: Job, sends: seq<Sending>): seq<Transmission>
    requires Indices(Sent(sends), u.file)
  {
    [Transmission(StartFrame(u), Intact)] + Transmissions(u, sends)
      + [Transmission(EndFrame(u), Intact)]
  }

  lemma FramesFit(u: Job, parse: Parser)
    requires CarriesUpload(u, parse)
    ensures |StartFrame(u)| + 2 < MAX_FRAME && |EndFrame(u)| + 2 < MAX_FRAME
  {
    hide NumBlocks;
  }

  /** Any two wrong bits in the frame of a block of up to 2048 bytes are damage of the kind that is noticed. */
  lemma TwoWrongBitsNoticed(u: Job, parse: Parser, k: nat, y: seq<byte>, i: nat, j: nat)
    requires CarriesUpload(u, parse) && k < NumBlocks(u.file) && |BlockAt(u.file, k).data| <= 2048
    requires TwoBitErrors.FlippedAt(Body(BlockFrame(u, k), true), y, i, j)
    ensures Plausible(Transmission(BlockFrame(u, k), Damaged(y)))
  {
    hide TwoBitErrors.FlippedAt, TwoFlips, Burst, OddFlips, NumBlocks, Body;
    assert Carries(u.render, parse, BlockHeader(u, k));
    TwoFlipsInShortFrame(Body(BlockFrame(u, k), true), y, i, j);
  }

  /** What the receiving end has said and done by the end of the transfer. */
  function Result(u: Job, arrived: seq<nat>): seq<Output> {
    var n := NumBlocks(u.file);
    if |arrived| == n then
      [Ack(n, n), HandOver(u.render(StartHeader(u)), u.file.image, |u.file.image|, FirmwareType(u.kind))]
    else [NotAck(|arrived|, n)]
  }

  ghost predicate Sendable(u: Job, parse: Parser, sends: seq<Sending>) {
    && u.file.image != [] && CarriesUpload(u, parse)
    && Indices(Sent(sends), u.file) && NoRepeats(Sent(sends))
    && AllPlausible(Transmissions(u, sends))
  }

  /** The whole way, from image to file. Blocks are sent in any order, each at most once; some are
      lost, some damaged on the line. The receiving end acknowledges and hands over exactly the image
      when every block came through, and otherwise refuses and hands over nothing. */
  lemma EndToEnd(u: Job, parse: Parser, heap: Heap, sends: seq<Sending>)
    requires Sendable(u, parse, sends) && Honest(heap) && heap(0, |u.file.image|).Some?
    ensures var frames := Delivered(Line(Transfer(u, sends)), true);
      var cs := Commands(parse, heap, 0, frames);
      && AllAllocate(cs)
      && Run(INITIAL, cs).out == Result(u, Arrived(sends))
    ensures |Arrived(sends)| == NumBlocks(u.file) <==> AllArrived(Arrived(sends), NumBlocks(u.file))
  {
    hide Delivered, Line, Run, StartFrame, BlockFrame, EndFrame, Exchange, Commands, NoRepeats, AllArrived, Carries,
         NumBlocks, IsFirmware, BlockFrames, Damage, Arrived, Transmissions;
    var memory := heap(0, |u.file.image|).value;
    var ts := Transfer(u, sends);
    TransferDelivers(u, parse, sends);
    ArrivedWereSent(sends, u.file);
    var r := Arrived(sends);
    FramesAreExchange(u, parse, heap, memory, r);
    FirmwareLetters(u.kind);
    AcknowledgedIffComplete(INITIAL, StartCommand(u, memory), u.file, memory, r);
    CountIffAllArrived(r, NumBlocks(u.file));
  }

  /** The frames that come out of the line: the start, the blocks that survived, and the end. */
  lemma TransferDelivers(u: Job, parse: Parser, sends: seq<Sending>)
    requires Sendable(u, parse, sends)
    ensures Indices(Arrived(sends), u.file)
    ensures Delivered(Line(Transfer(u, sends)), true)
         == [StartFrame(u)] + BlockFrames(u, Arrived(sends)) + [EndFrame(u)]
  {
    hide Delivered, Line, StartFrame, BlockFrame, EndFrame, NoRepeats, Carries;
    hide NumBlocks, BlockFrames, Damage, Arrived;
    var ts := Transfer(u, sends);
    FramesFit(u, parse);
    NothingHeard();
    NoisyLine([], ts);
    assert [] + Line(ts) == Line(ts);
    NothingDelivered(true);
    SurvivorOne(Transmission(StartFrame(u), Intact));
    SurvivorOne(Transmission(EndFrame(u), Intact));
    var middle := Transmissions(u, sends);
    SurvivorsConcat([Transmission(StartFrame(u), Intact)], middle);
    SurvivorsConcat([Transmission(StartFrame(u), Intact)] + middle,
                    [Transmission(EndFrame(u), Intact)]);
    SurvivorsAreArrived(u, sends);
    var frames := [StartFrame(u)] + BlockFrames(u, Arrived(sends)) + [EndFrame(u)];
    assert [] + frames == frames;
  }

  /** However the bytes are cut in two, a new handler fed with them handles the same frames. */
  method FeedInPieces(handler: CommandHandler, wire: seq<byte>, cut: nat, heap: Heap)
    requires handler.Valid() && handler.miniHDLC.ReceiverValid() && Honest(heap) && cut <= |wire|
    requires handler.handled == [] && handler.miniHDLC.heard == [] && handler.miniHDLC.received == []
    requires handler.receivedFileData != handler.miniHDLC.rxBuffer
    modifies handler, handler.receivedFileData, handler.miniHDLC, handler.miniHDLC.rxBuffer
    ensures handler.Valid()
    ensures handler.handled == Commands(handler.parse, heap, 0, Delivered(wire, handler.miniHDLC.bigEndianCRC))
  {
    hide *;
    handler.HandleHDLCReceivedChars(wire[..cut], heap);
    ghost var first := handler.miniHDLC.received;
    assert first[0..] == first;
    handler.HandleHDLCReceivedChars(wire[cut..], heap);
    ghost var frames := handler.miniHDLC.received;
    assert [] + wire[..cut] + wire[cut..] == wire;
    handler.miniHDLC.LogIsDelivered();
    CommandsConcat(handler.parse, heap, 0, first, frames[|first|..]);
    assert first + frames[|first|..] == frames;
  }

  /** The objects do it: a new command handler given the bytes of the line ends up having said and
      done just that. */
  method ReceiveUpload(u: Job, parse: Parser, heap: Heap, sends: seq<Sending>,
                       cut: nat)
    returns (out: seq<Output>)
    requires Sendable(u, parse, sends) && Honest(heap) && heap(0, |u.file.image|).Some?
    requires cut <= |Line(Transfer(u, sends))|
    ensures out == Result(u, Arrived(sends))
  {
    EndToEnd(u, parse, heap, sends);
    var wire := Line(Transfer(u, sends));
    hide *;
    var handler := new CommandHandler(parse);
    FeedInPieces(handler, wire, cut, heap);
    handler.OutOfRun();
    out := handler.out;
  }

  lemma CommandsConcat(parse: Parser, heap: Heap, k: nat, a: seq<seq<byte>>, b: seq<seq<byte>>)
    ensures Commands(parse, heap, k, a + b) == Commands(parse, heap, k, a) + Commands(parse, heap, k + |a|, b)
  {
    hide Decode;
  }
}
