# Bus Raider: the framed serial link, the upload over it, and two loaders

The Pi side of the Bus Raider talks to a host (or to an ESP32) over a serial line. This project models
four parts of it, and what joins them.

**The link.** `MiniHDLC` sends a payload as a frame: a flag, the payload and a 16-bit check sequence
with flags and escapes escaped, a flag. In its bit-oriented form the same bytes go out bit by bit, low
bit first, with a zero after every fifth one. The receiver undoes both layers into a fixed buffer, keeps a
check sequence that lags two bytes behind, and hands over each frame that passes.

- `Crc`, `Division`, `CrcDivision`, `CrcDetection`, `PowersOfX`, `TwoBitErrors`: the lookup table and its
  update step; division of bit strings over GF(2), which knows nothing of tables or bytes; the proof that
  one computes the other; and the errors such a remainder detects, two wrong bits by way of the order of x
  modulo the polynomial.
- `Hdlc`: the wire format as functions of a payload, and the meaning of a received stream as functions of
  *all bytes heard so far*: what is in the buffer, what every flag has closed, what has been delivered.
- `HdlcReception`: round trips, streams, resynchronisation, transparency, error detection.
- `HdlcBits`, `HdlcBitReception`, `HdlcBitCarry`: bit stuffing, the bit receiver, and the run of ones the
  sender carries from frame to frame.
- `MiniHdlc`, `BitLink`: the object itself, updated in place over an array, every method proved against
  those functions; a sender and a receiver object joined by a line of bits.
- `PythonPeers`, `PythonStreams`, `PythonObjects`: the two SimpleHDLC receivers (their byte handling is the
  same code, their callbacks are not), the SimpleHDLC encoder and the dump parser, as functions and as the
  mutable objects they are, and where they part from the Pi.

**The upload.** `FileTransfer` is the file-receive state machine of the command handler with its
timeout; `TransferHistory` says what every command does in every run, and reads the whole state off the
commands alone; `FileCoverage` relates counters to the bytes written; `Upload` is an image sent in blocks of
any lengths, those of the tools (1024) and of the ESP32 (1000, or as they come) among them, that may be
dropped, reordered or repeated. `CommandFrame` splits a frame into command and parameters,
`CommandHandler` is the object, with its own link receiver inside, and `UploadLink` puts everything from
image to file together over a line that loses and damages frames.

**The loaders.** `SRecord`, `SRecordFile`, `BootLoader`: the nibble-at-a-time S-record loader, against
a printer of S-record files. `Trs80Cmd`, `Trs80CmdFile`: the /CMD record loop, against a printer of such
files.

## What the main results say

- The table-driven check sequence of any message is the remainder of dividing its bits by
  x^16 + x^12 + x^5 + 1 from the given start value (`CrcIsDivision`). Every burst of up to sixteen bits and
  every odd number of bit errors in payload or check sequence is therefore rejected, at any frame length.
  Two wrong bits go unnoticed *exactly* when they are a multiple of 32767 bits apart
  (`TwoFlipsAcceptedIff`), so never within a frame of less than 4096 bytes.
- Whatever bytes a receiver has been fed, its buffer, its lagging register, its statistics and its list of
  delivered frames are one function of those bytes (`MiniHdlc.HandleChar` and the lemmas it uses), so cutting
  a stream into pieces changes nothing (`MiniHdlc.HandleBuffer`).
- Whatever that history was, one more frame in bytes or in bits is delivered last, with at most one
  delivery before it (`Resynchronises`, `BitResynchronises`).
- Bit round trips hold from a carried run of zero. For later frames the bytes between two flags come
  through *exactly* when the run carried in cannot be completed to five by the first byte (`CarriedRunIff`);
  of two empty frames in a row the second already ends as a check error (`SecondEmptyFrameGarbled`).
- From every stream of frames with their own flags the Pi, the receiver of the hardware debugger with its
  binary callback and the dump parser accept the same payloads. The receiver of the tools decodes every
  payload as text and its thread ends at the first that does not decode, so it reports all *exactly* when
  all decode (`Interoperate`). A damaged frame ends either Python reader exactly when its kept bytes do not
  decode (`FrameRead`).
- Over streams of frames between flags, their flags shared or missing, the Pi delivers every frame, and a
  Python receiver accepts the same *exactly* when no frame comes before the first flag and no two frames
  share one (`AgreeIffOwnFlags`); of a chain of shared flags it takes every second frame (`SharedFlag`). On a
  segment of any bytes the Pi and the Python receivers read the same data *exactly* when no escape follows
  an escape (`SameDataIff`). The dump parser follows the Python receiver on every stream of bytes in which
  no flag stands directly behind an escape (`DumpFollowsPython`); an escape left over that way spoils the
  next frame *exactly* when that does not start with an escaped byte (`SpoiledIff`).
- The zero that the receiver writes behind a frame is what keeps command and parameters inside it,
  whatever else the buffer holds (`TerminatorContains`, `TerminatorNeeded`).
- After any run of starts, blocks, ends and timeouts the state of the handler is what the commands tell: which
  file is being received and its contents, both counters, every answer and every hand-over (`RunIsPast`). A
  block is stored *exactly* when it lies within the buffer (`BlockStored`), an end is acknowledged *exactly*
  when it names the number of blocks stored (`EndAnswered`), and after a timeout nothing is answered until the
  next good start (`TimeoutForgets`).
- An uploaded image either arrives whole, is acknowledged and handed over, or is refused with nothing
  handed over, whatever order the blocks take and whichever of them are lost or damaged (`EndToEnd`,
  and `ReceiveUpload` for the objects). This needs blocks that do not repeat: with repeats an
  acknowledged transfer is complete exactly when none repeats (`AcknowledgedButIncomplete`), and the length
  handed over exceeds the buffer, for blocks of one length, exactly when the last is short and did not arrive
  (`CountedLength`); `RepeatHidesLoss` gives an acknowledged file with a hole.
- A printed S-record file leaves in memory at every address the byte of the last record that has one there
  (`FileInMemory`) and boots at the last S7 address (`FileBoots`); one wrong digit behind the count always
  ends in the checksum error (`OneDigitDetected`). S7 with data does not set the address it names
  (`EntryIsNamedIffNoData`).
- A printed /CMD file with a two-byte exec record at most at its end issues exactly its segments and
  program counters (`FileRead`), and the loop terminates on any bytes. Behind a two-byte exec record two bytes
  are stepped over, and the rest is read from there (`ExecResumes`). When the records behind it have less
  than two bytes to spare, which is no skipped record and at most one two-byte exec record of an address
  below 256, the file keeps its meaning, with no byte taken from behind its end, *exactly* when there are none
  (`ExecMustBeLast`). A skipped record behind it is harmless exactly when the records its body spells mean
  nothing (`SkipBehindExec`), and four bytes or less exactly when they mean nothing (`FewBytesBehindExec`).

Where comments and code disagree the model follows the code. MiniHDLC.h:83-85 likens the check
sequence to `_crc_ccitt_update` and `qChecksum`; the code's is not bit-reflected and has no final
complement.

## Model

| member | source | states |
|---|---|---|
| CrcDivision.EntryIsShifts | PiSw/src/CommandInterface/MiniHDLC.cpp:8-25 | each of the 256 table entries is its index, in the high byte, shifted out over eight shift-and-conditional-xor steps with 0x1021 |
| CrcDivision.UpdateIsDivision | PiSw/src/CommandInterface/MiniHDLC.cpp:212-215 | for every register and byte, one table step is eight steps of bit-serial division |
| CrcDetection.CrcIsDivision | PiSw/src/CommandInterface/MiniHDLC.cpp:212-215 | over every byte string the table-driven check sequence is the remainder of dividing its bits, from any start value |
| Crc.CheckValue | PiSw/src/CommandInterface/MiniHDLC.cpp:8-25 | the check sequence of the nine ASCII digits is 0x29B1 |
| CrcDetection.BurstChangesCrc | PiSw/src/CommandInterface/MiniHDLC.cpp:8-25 | equal-length messages that differ only inside sixteen consecutive bits have different check sequences |
| CrcDetection.OddErrorsChangeCrc | PiSw/src/CommandInterface/MiniHDLC.cpp:8-25 | an odd number of wrong bits changes the check sequence |
| CrcDetection.TwoBytesChangeCrc | PiSw/src/CommandInterface/MiniHDLC.cpp:8-25 | so does any change to one or two adjacent bytes |
| CrcDetection.ZeroOnlyForOwnSequence | PiSw/src/CommandInterface/MiniHDLC.cpp:93-124 | a two-byte tail brings the register to zero if and only if it is the check sequence, high byte first |
| PowersOfX.OrderOfX | PiSw/src/CommandInterface/MiniHDLC.cpp:8-25 | x^d leaves remainder one modulo the polynomial if and only if d is a multiple of 32767 |
| TwoBitErrors.TwoFlipsChangeCrc | PiSw/src/CommandInterface/MiniHDLC.cpp:8-25 | two wrong bits leave a check sequence as it was if and only if they are a multiple of 32767 bits apart |
| HdlcReception.AcceptedIffZeroRemainder | PiSw/src/CommandInterface/MiniHDLC.cpp:93-124 | a buffer of two or more bytes is accepted if and only if the check sequence over all of it is zero |
| HdlcReception.CorruptFrameRejected | PiSw/src/CommandInterface/MiniHDLC.cpp:93-124 | no burst of up to sixteen bits, no odd number of bit errors and no two bit errors other than a multiple of 32767 bits apart, anywhere in payload or check sequence, turns one accepted frame into another |
| HdlcReception.TwoBytesAreABurst | PiSw/src/CommandInterface/MiniHDLC.cpp:93-124 | any change inside a window of two adjacent bytes is such a burst, across the border of payload and check sequence too |
| HdlcReception.TwoFlipsAcceptedIff | PiSw/src/CommandInterface/MiniHDLC.cpp:93-124 | a frame that is an accepted one with two bits changed is accepted too if and only if they are a multiple of 32767 bits apart |
| HdlcReception.TwoFlipsInShortFrame | PiSw/src/CommandInterface/MiniHDLC.cpp:93-124 | in a frame of less than 4096 bytes two wrong bits never are |
| HdlcReception.CorruptPayloadRejected | PiSw/src/CommandInterface/MiniHDLC.cpp:93-124 | in either byte order, such damage to the payload alone is rejected |
| HdlcReception.CorruptFrameNotDelivered | PiSw/src/CommandInterface/MiniHDLC.cpp:88-167 | a frame so damaged between its flags adds one check error and no delivery |
| Hdlc.UnescapeEscaped | PiSw/src/CommandInterface/MiniHDLC.cpp:135-145 | unescaping undoes escaping after any prefix that left no escape waiting |
| Hdlc.EscapeOnWire | PiSw/src/CommandInterface/MiniHDLC.cpp:279-287 | 0x7E goes out as 7D 5E, 0x7D as 7D 5D, every other byte as itself |
| Hdlc.UnescapeOnWire | PiSw/src/CommandInterface/MiniHDLC.cpp:135-145 | behind 0x7D a byte counts with bit 5 flipped, and every other byte counts as it is |
| Hdlc.FrameOnWire | PiSw/src/CommandInterface/MiniHDLC.cpp:177-210 | a frame is 7E, the escaped payload and check sequence, high or low byte first as asked, 7E |
| HdlcReception.EscapedIsTransparent | PiSw/src/CommandInterface/MiniHDLC.cpp:279-287 | between flags no flag is sent, and every escape byte is followed by 0x5D or 0x5E |
| HdlcReception.HeldGrows | PiSw/src/CommandInterface/MiniHDLC.cpp:156-166 | one data byte grows what the buffer holds by that byte, or empties it when it fills it |
| HdlcReception.Resynchronises | PiSw/src/CommandInterface/MiniHDLC.cpp:88-167 | after any bytes whatever, one frame closes what was pending and then delivers its payload, leaving nothing pending |
| HdlcReception.HearOne | PiSw/src/CommandInterface/MiniHDLC.cpp:88-133 | a byte extends the deliveries by at most one frame, and only a flag does |
| HdlcReception.StreamDelivers | PiSw/src/CommandInterface/MiniHDLC.cpp:169-210 | frames and idle flags in any mixture deliver exactly the payloads, in order, at any point of a stream with nothing pending |
| HdlcReception.FreshStream | PiSw/src/CommandInterface/MiniHDLC.cpp:169-210 | a fresh receiver delivers exactly the payloads of such a stream |
| HdlcReception.DeliveredIffFits | PiSw/src/CommandInterface/MiniHDLC.cpp:159-166 | a frame is delivered if and only if payload and check sequence together stay below the maximum |
| MiniHdlc.LaggedGrows | PiSw/src/CommandInterface/MiniHDLC.cpp:150-154 | updating with the byte two places back keeps the register equal to the check sequence of all but the last two bytes |
| MiniHdlc.VerdictIsAcceptance | PiSw/src/CommandInterface/MiniHDLC.cpp:93-112 | comparing that register with the last two bytes, in either order, decides whether the buffer ends in its own check sequence |
| MiniHdlc.HearDataEffect | PiSw/src/CommandInterface/MiniHDLC.cpp:135-166 | what a data byte does to the bytes since the last flag is what the escape and buffer branches do |
| MiniHdlc.BoundaryEffect | PiSw/src/CommandInterface/MiniHDLC.cpp:90-133 | a flag empties the buffer, counts one frame, and delivers or counts a check error exactly as acceptance says |
| MiniHdlc.FlagsCounted | PiSw/src/CommandInterface/MiniHDLC.cpp:131 | the frame statistic counts every 0x7E heard |
| MiniHdlc.DiscardsCounted | PiSw/src/CommandInterface/MiniHDLC.cpp:159-166 | a segment of n data bytes, escaped or not, adds n / 100000 to the statistic of frames too long |
| MiniHdlc.MiniHdlc.constructor | PiSw/src/CommandInterface/MiniHDLC.cpp:33-47 | a new object is in the state that no bytes lead to |
| MiniHdlc.MiniHdlc.HandleChar | PiSw/src/CommandInterface/MiniHDLC.cpp:88-167 | position, buffer, lagging register, escape state, deliveries and statistics remain the functions of the bytes heard; a delivered payload has a zero behind it in the buffer |
| MiniHdlc.MiniHdlc.HandleBoundary | PiSw/src/CommandInterface/MiniHDLC.cpp:90-133 | the same for a flag |
| MiniHdlc.MiniHdlc.HandleData | PiSw/src/CommandInterface/MiniHDLC.cpp:135-145 | the same for a data byte, escapes undone |
| MiniHdlc.MiniHdlc.Store | PiSw/src/CommandInterface/MiniHDLC.cpp:147-166 | the byte is appended and the register lags on, or a full buffer is thrown away and counted |
| MiniHdlc.MiniHdlc.HandleBuffer | PiSw/src/CommandInterface/MiniHDLC.cpp:169-174 | the state reached depends on the bytes only, not on how they are cut into calls |
| MiniHdlc.MiniHdlc.HandleBit | PiSw/src/CommandInterface/MiniHDLC.cpp:50-85 | the bit state steps as specified, and the byte it completes, if any, is heard |
| MiniHdlc.MiniHdlc.SendChar | PiSw/src/CommandInterface/MiniHDLC.cpp:217-236 | a flag goes out as one byte or as its eight bits, low bit first, not counted as ones |
| MiniHdlc.MiniHdlc.SendCharWithStuffing | PiSw/src/CommandInterface/MiniHDLC.cpp:238-277 | the loop emits the stuffed bits of the byte and leaves the run of ones they end in, which stays in 0..4 |
| MiniHdlc.MiniHdlc.SendEscaped | PiSw/src/CommandInterface/MiniHDLC.cpp:279-287 | a byte goes out as its one or two wire bytes, stuffed in bit mode |
| MiniHdlc.MiniHdlc.SendFrame | PiSw/src/CommandInterface/MiniHDLC.cpp:177-210 | what goes out is the whole encoded frame, in bytes or in bits, either byte order |
| HdlcBits.ReadStuffed | PiSw/src/CommandInterface/MiniHDLC.cpp:66-84 | the receiver drops exactly the zeros the sender inserted in a byte |
| HdlcBits.OneRead | PiSw/src/CommandInterface/MiniHDLC.cpp:50-85 | from every bit state a one is data |
| HdlcBits.ZeroRead | PiSw/src/CommandInterface/MiniHDLC.cpp:50-85 | from every bit state a zero ends a flag behind exactly six ones, is dropped behind five or more than six, and is data otherwise |
| HdlcBitReception.ReadStuffedAll | PiSw/src/CommandInterface/MiniHDLC.cpp:50-85 | a receiver in step passes on exactly the bytes that were stuffed |
| HdlcBitReception.ReadFlag | PiSw/src/CommandInterface/MiniHDLC.cpp:56-64 | from every bit state the eight bits of a flag end in a flag at a byte boundary, with at most one byte before it |
| HdlcBitReception.ReadFrameBits | PiSw/src/CommandInterface/MiniHDLC.cpp:50-85 | from every bit state a frame in bits passes on the frame in bytes, after at most one other byte |
| HdlcBitReception.BitRoundTrip | PiSw/src/CommandInterface/MiniHDLC.cpp:50-167 | a frame sent in bits from a run of zero is delivered once, without error, and both receivers are back at a frame start |
| HdlcBitReception.BitResynchronises | PiSw/src/CommandInterface/MiniHDLC.cpp:50-167 | from every bit and byte state its payload is the last delivery, with at most one before it |
| HdlcBitCarry.StuffedAllRuns | PiSw/src/CommandInterface/MiniHDLC.cpp:250-270 | for every carried run of at most four, no run on the line exceeds five, none is longer than the sender's count at the end of a byte string, and that count is again at most four |
| HdlcBitCarry.StuffedIsPlain | PiSw/src/CommandInterface/MiniHDLC.cpp:238-277 | for every carried run the line holds the plain bits of the bytes, low bit first, with one more behind every five ones and nothing else |
| HdlcBitCarry.NeverSixOnes | PiSw/src/CommandInterface/MiniHDLC.cpp:238-277 | for every carried run, among any six consecutive bits between flags there is a zero |
| HdlcBitCarry.CarriedRunIff | PiSw/src/CommandInterface/MiniHDLC.cpp:250-270 | the bytes between two flags come through if and only if the run carried in is zero or the first byte cannot extend it to five |
| HdlcBitCarry.ReadBitWire | PiSw/src/CommandInterface/MiniHDLC.cpp:50-85 | a stream in bits passes on the very bytes of the stream in bytes while no carried run does harm |
| HdlcBitCarry.BitStreamDelivers | PiSw/src/CommandInterface/MiniHDLC.cpp:50-167 | and then delivers exactly its payloads, in order |
| HdlcBitCarry.SecondEmptyFrameGarbled | PiSw/src/CommandInterface/MiniHDLC.cpp:46 | the count is not reset at a frame: of two empty frames the first is delivered and the second ends as a check error |
| BitLink.Carry | PiSw/src/CommandInterface/MiniHDLC.cpp:50-85 | bits fed one at a time leave the object in the state of the whole run |
| BitLink.SendOne | PiSw/src/CommandInterface/MiniHDLC.cpp:50-287 | a new sender object and a new receiver object: every payload that fits is received once, with no error counted |
| PythonPeers.AddEscaped | PiSw/tools/SimpleHDLC.py:36-44 | the Python rule undoes the escaping of the sender |
| PythonPeers.AddOnWire | PiSw/tools/SimpleHDLC.py:36-44 | 0x7D waits, even behind another; behind it a byte counts with bit 5 flipped, and every other byte counts as it is |
| PythonPeers.ReadingsCompared | PiSw/tools/SimpleHDLC.py:36-44 | on any segment the Python and the Pi receiver have read the same, or an escape has followed an escape and Python is behind |
| PythonPeers.SameDataIff | PiSw/tools/SimpleHDLC.py:36-44 | they read the same data if and only if no escape follows an escape |
| PythonPeers.FinishIsAcceptance | PiSw/tools/SimpleHDLC.py:46-56 | finishing and checking a frame of any length, even one byte, gives the verdict of the Pi |
| PythonPeers.PyFrame | PiSw/examples/hardwareDebug/SimpleHDLC.py:115-146 | after any history that left nothing collected a frame with its own flags is finished whole, with a good check, and the receiver waits again once its binary callback has had it |
| PythonPeers.PyStream | PiSw/examples/hardwareDebug/SimpleHDLC.py:115-146 | every stream of frames and idle flags yields exactly its payloads |
| PythonPeers.DumpStream | PiSw/tools/ParseHDLCDump.py:16-46 | the dump parser accepts exactly those payloads too |
| PythonPeers.ReportedStops | PiSw/tools/SimpleHDLC.py:81-93 | what a receiver reports is exactly the frames before the first whose callback raises |
| PythonPeers.ReaderReports | PiSw/tools/SimpleHDLC.py:95-133 | a new receiver fed any bytes reports just that, raises exactly when some frame does, and is otherwise where the frame receiver is |
| PythonPeers.FrameRead | PiSw/tools/SimpleHDLC.py:81-133 | after any history that raised nothing and left nothing collected, a frame of any bytes between flags raises if and only if its kept bytes do not decode and it is bad or has a text callback; then it is held unreported, otherwise reported, good or bad, and let go |
| PythonPeers.DamagedFrameRead | PiSw/tools/SimpleHDLC.py:88-93 | a new reader given one damaged frame raises if and only if its kept bytes do not decode |
| PythonPeers.HeldFrameAgain | PiSw/tools/SimpleHDLC.py:102-133 | fed on after an exception, a flag takes two more bytes off the held frame and judges it again, any other byte calls its callback again |
| PythonPeers.Interoperate | PiSw/tools/SimpleHDLC.py:81-133 | from every stream of frames with their own flags within the length limit the Pi, the hardware debugger with its binary callback and the dump parser accept all payloads in order, and the receiver of the tools reports all exactly when all decode as text |
| PythonStreams.AgreeIffOwnFlags | PiSw/tools/SimpleHDLC.py:104-127 | over frames between flags, shared or missing flags included, the Pi delivers every frame, and the Python receiver accepts the same if and only if no frame comes before the first flag and no two share one |
| PythonStreams.SharedFlag | PiSw/tools/SimpleHDLC.py:104-127 | of any chain of frames that share flags the Pi delivers all, the Python receiver and the dump parser every second |
| PythonStreams.DumpFollowsPython | PiSw/tools/ParseHDLCDump.py:16-46 | on every stream of bytes in which no flag stands directly behind an escape, the dump parser has the same events as the Python receiver and is at the same point |
| PythonStreams.SpoiledIff | PiSw/tools/ParseHDLCDump.py:16-46 | with an escape left over between frames, the dump parser takes the next frame if and only if its first byte is an escaped one, and counts it as bad otherwise |
| PythonStreams.EscapedFlagSpoils | PiSw/tools/ParseHDLCDump.py:21-44 | after an unpaired escape before a closing flag the Python receiver takes the frame that follows, the dump parser only one that starts with an escaped byte |
| PythonObjects.Frame.constructor | PiSw/tools/SimpleHDLC.py:25-31 | a new frame has collected nothing |
| PythonObjects.Frame.Add | PiSw/tools/SimpleHDLC.py:36-44 | a byte changes what the frame has collected as specified and nothing else |
| PythonObjects.Frame.Finish | PiSw/tools/SimpleHDLC.py:46-49 | the last two bytes become the check sequence and the rest the data |
| PythonObjects.Frame.CheckCRC | PiSw/tools/SimpleHDLC.py:51-56 | true exactly for the data's own check sequence; otherwise the frame is marked wrong |
| PythonObjects.SimpleHdlc.ReadByteAndProc | PiSw/tools/SimpleHDLC.py:102-133 | from every state, also one that holds a frame whose callback has raised, the current frame, the reports, the exception and the last frame are those of the specified step |
| PythonObjects.SimpleHdlc.ProcessBytes | PiSw/examples/hardwareDebug/SimpleHDLC.py:109-113 | bytes are taken in order, and an exception leaves the rest unread |
| PythonObjects.SimpleHdlc.ReadStream | PiSw/tools/SimpleHDLC.py:171-179 | a new receiver object fed any bytes has accepted what the specification reports of them, and raised exactly when some frame raises |
| PythonObjects.SimpleHdlc.EncodeFrame | PiSw/tools/SimpleHDLC.py:156-169 | the bytes are those the sender on the Pi puts on the line |
| PythonObjects.DumpParser.Add | PiSw/tools/ParseHDLCDump.py:16-46 | the script's variables and both counters remain those of the bytes read |
| CommandFrame.SplitStaysInside | PiSw/src/CommandInterface/CommandHandler.cpp:141-156 | for every frame, with or without a zero inside, command and parameters are a prefix and a suffix of it, apart |
| CommandFrame.TerminatorContains | PiSw/src/CommandInterface/MiniHDLC.cpp:114-119 | in any memory that starts with a frame and a zero the string ends no later than that zero, and command and parameters are those of the frame |
| CommandFrame.TerminatorNeeded | PiSw/src/CommandInterface/MiniHDLC.cpp:114-119 | a frame without a zero of its own is read as its own command if and only if the zero behind it is there |
| CommandFrame.SplitIffShort | PiSw/src/CommandInterface/CommandHandler.cpp:146-152 | a zero-free header and its parameters are told apart if and only if the header is under 2000 characters |
| CommandFrame.SplitWithoutZero | PiSw/src/CommandInterface/CommandHandler.cpp:146-152 | a frame without a zero is all command under that length, and is cut otherwise |
| CommandFrame.LongHeaderCut | PiSw/src/CommandInterface/CommandHandler.cpp:146-152 | of a longer header the first 1999 characters are the command, and all behind the next is taken for parameters |
| TransferHistory.RunInvariant | PiSw/src/CommandInterface/CommandHandler.cpp:350-443 | over any run of starts, blocks, ends and timeouts: no buffer if and only if size 0; the counters are the number and total length of the blocks taken since the last good start; the buffer is their overlay, in order, on the memory it came with |
| TransferHistory.StartTaken | PiSw/src/CommandInterface/CommandHandler.cpp:350-406 | in every run a start with name, type and positive length opens a transfer in the memory it got, or leaves none; any other start only renames |
| TransferHistory.BlockStored | PiSw/src/CommandInterface/CommandHandler.cpp:412-443 | in every run a block is stored at its index and both counters move if and only if there is a buffer and it lies within it; otherwise nothing changes |
| TransferHistory.EndAnswered | PiSw/src/CommandInterface/CommandHandler.cpp:449-490 | in every run with a buffer an end is acknowledged and the buffer handed over if and only if its count, 0 when missing, is the number of blocks taken since the last good start, and refused otherwise; the flag says firmware letter by letter |
| TransferHistory.FirmwareLetters | PiSw/src/CommandInterface/CommandHandler.cpp:473 | a type is firmware if and only if it is those eight letters, each in either case |
| TransferHistory.TimeoutForgets | PiSw/src/CommandInterface/CommandHandler.cpp:672-694 | after a timeout in any run everything up to the next good start goes unanswered and finds no buffer |
| TransferHistory.RunIsPast | PiSw/src/CommandInterface/CommandHandler.cpp:350-503 | after any run file, contents, counters, type, start information and all answers are what the commands alone tell |
| FileCoverage.CoveredCount | PiSw/src/CommandInterface/CommandHandler.cpp:431-439 | the byte count never falls short of the bytes covered, and equals it if and only if no two blocks overlap |
| FileCoverage.UncoveredUntouched | PiSw/src/CommandInterface/CommandHandler.cpp:434-435 | bytes no accepted block covers keep what the memory held |
| TransferHistory.CompleteByCounting | PiSw/src/CommandInterface/CommandHandler.cpp:496-503 | in any run, of the three: the count says complete, every byte has been written, no blocks taken overlap, any two give the third |
| TransferHistory.StatusTold | PiSw/src/CommandInterface/CommandHandler.cpp:496-503 | in any run a transfer is in progress if and only if a file is being received and the bytes taken are not as many as it is long |
| Upload.OverlayPaints | PiSw/src/CommandInterface/CommandHandler.cpp:434-435 | in any order and however often, the blocks that arrive, of whatever lengths, put the image where they belong and leave old memory elsewhere |
| Upload.UniformBlock | PiSw/tools/UploadToBusRaider.py:75-79 | block i of a cut into equal lengths starts at i times the length and is full unless it is the last |
| Upload.BlocksTaken | PiSw/src/CommandInterface/CommandHandler.cpp:412-443 | every block of the image, however it is cut, is taken, and buffer and both counters are told by the arrivals |
| Upload.TotalIsImage | PiSw/tools/UploadToBusRaider.py:74-81 | distinct blocks that have all arrived add up to the image's length |
| Upload.CountIffAllArrived | PiSw/src/CommandInterface/CommandHandler.cpp:462 | without repeats, as many arrivals as blocks if and only if every block arrived |
| Upload.CountedLength | PiSw/src/CommandInterface/CommandHandler.cpp:435-436 | with as many arrivals as blocks of one length, the last perhaps shorter, the length handed over exceeds the image if and only if the last block is short and did not arrive, and falls short of it if and only if it is short and came twice or more |
| Upload.AnswerCountsBlocks | PiSw/src/CommandInterface/CommandHandler.cpp:449-490 | whatever arrives, acknowledged and handed over if and only if as many blocks arrived as were sent |
| Upload.AcknowledgedIffComplete | PiSw/src/CommandInterface/CommandHandler.cpp:412-490 | with blocks lost and reordered, none repeated: acknowledged with the very image handed over when none was lost, refused and nothing handed over otherwise |
| Upload.AcknowledgedButIncomplete | PiSw/src/CommandInterface/CommandHandler.cpp:434-439 | with repeats, an acknowledged file holds old memory at every block that did not arrive; it is complete if and only if none repeated; the length handed over is what the arrivals add up to |
| Upload.RepeatHidesLoss | PiSw/src/CommandInterface/CommandHandler.cpp:434-439 | the first of two blocks twice and the second never: acknowledged, and not the image |
| Upload.NoMemoryNoAnswer | PiSw/src/CommandInterface/CommandHandler.cpp:385-404 | when the allocation fails the whole exchange goes unanswered |
| CommandHandler.CommandsAllocate | PiSw/src/CommandInterface/CommandHandler.cpp:383-393 | every run of frames makes only steps whose memory is as long as the file announced |
| CommandHandler.CommandHandler.constructor | PiSw/src/CommandInterface/CommandHandler.cpp:38-60 | a new handler has no buffer and a fresh big-endian byte-mode link receiver |
| CommandHandler.CommandHandler.HandleHDLCReceivedChars | PiSw/src/CommandInterface/CommandHandler.cpp:97-101 | the frames the bytes complete are handled in order, each once, at the moment they are complete |
| CommandHandler.CommandHandler.HandleOne | PiSw/src/CommandInterface/MiniHDLC.cpp:112-120 | a byte that completes a frame has it handled out of the receive buffer before the next byte |
| CommandHandler.CommandHandler.HdlcFrameRx | PiSw/src/CommandInterface/CommandHandler.cpp:141-194 | a frame, read out of the receive buffer up to the zero behind it, takes the handler one step further along its history |
| CommandHandler.CommandHandler.HandleFileStart | PiSw/src/CommandInterface/CommandHandler.cpp:350-406 | name, type, start information, buffer, size and counters change as the state machine says, missing fields included |
| CommandHandler.CommandHandler.HandleFileBlock | PiSw/src/CommandInterface/CommandHandler.cpp:412-443 | the data is copied into the array in place and counted, or nothing changes |
| CommandHandler.CommandHandler.HandleFileEnd | PiSw/src/CommandInterface/CommandHandler.cpp:449-490 | answer, hand-over and clear-down are those of the state machine |
| CommandHandler.CommandHandler.Service | PiSw/src/CommandInterface/CommandHandler.cpp:672-680 | a timeout takes buffer and size, enters the history and answers nothing; without one nothing changes |
| CommandHandler.CommandHandler.FileReceiveCleardown | PiSw/src/CommandInterface/CommandHandler.cpp:687-694 | buffer and size are given up, the counters kept |
| CommandHandler.CommandHandler.GetFileReceiveStatus | PiSw/src/CommandInterface/CommandHandler.cpp:496-503 | in progress exactly when there is a size and the bytes received are not as many, and exactly when the run so far is; then size and position are the run's |
| CommandHandler.StatusAfterTimeout | PiSw/src/CommandInterface/CommandHandler.cpp:672-694 | after a timeout the status query says no |
| UploadLink.SendFile | PiSw/tools/UploadToBusRaider.py:65-85 | the loop sends the start frame, every block of 1024 bytes of the image once in order, and the end frame with their number |
| UploadLink.ChunkUploader.UploadCommonBlockHandler | EspSw/BusRaiderEsp32/lib/RdCommandSerial/CommandSerial.cpp:272-300 | a block goes out with its index, the first behind a start record, the final one before an end record with the count |
| UploadLink.SendChunks | EspSw/BusRaiderEsp32/lib/RdCommandSerial/CommandSerial.cpp:272-300 | the blocks of a file given in order, however it is cut, become the frames of the upload |
| UploadLink.FramesAreExchange | PiSw/src/CommandInterface/CommandHandler.cpp:141-194 | the handler reads those frames as exactly a start, these blocks, and an end with their number |
| UploadLink.NoisyLine | PiSw/src/CommandInterface/MiniHDLC.cpp:88-167 | of frames left alone, swallowed or damaged on the line, exactly those left alone are delivered, in order |
| UploadLink.TwoWrongBitsNoticed | PiSw/tools/UploadToBusRaider.py:77-81 | any two wrong bits in the frame of a block of up to 2048 bytes are damage of the kind that is noticed |
| UploadLink.TransferDelivers | PiSw/tools/UploadToBusRaider.py:65-85 | what comes out of the line is the start frame, the surviving block frames and the end frame |
| UploadLink.EndToEnd | PiSw/src/CommandInterface/CommandHandler.cpp:97-490 | from image to file, whatever its name and type and however it is cut: blocks in any order, each at most once, some lost or damaged; acknowledged with exactly the image handed over when all came through, as firmware exactly for that type, refused with nothing handed over otherwise |
| UploadLink.FeedInPieces | PiSw/src/CommandInterface/CommandHandler.cpp:97-101 | a new handler handles the frames of the whole stream, wherever it is cut in two |
| UploadLink.ReceiveUpload | PiSw/src/CommandInterface/CommandHandler.cpp:97-490 | the handler object, given the bytes of the line, ends up having answered and handed over just that |
| SRecord.AddressPhase | Tools/BootLoader/bootloader1mbps.c:134-163 | eight characters give the address, take four off the count and add its bytes to the sum |
| SRecord.DataPhase | Tools/BootLoader/bootloader1mbps.c:164-197 | the data bytes are written to consecutive addresses modulo 2^32, and the record is accepted if and only if the sum closes |
| SRecord.RecordOutcome | Tools/BootLoader/bootloader1mbps.c:114-197 | for any characters: where a record's data goes, which entry it leaves, and that it is accepted if and only if its bytes add up to 255 modulo 256 |
| SRecord.ErrorsAreFinal | Tools/BootLoader/bootloader1mbps.c:104-128 | after an error or a branch no character changes anything |
| SRecordFile.OtherTypesStop | Tools/BootLoader/bootloader1mbps.c:104-109 | any record type but 0, 3 and 7 stops the loader, whatever follows |
| SRecordFile.ShortCountStops | Tools/BootLoader/bootloader1mbps.c:121-128 | so does a count below five |
| SRecordFile.NibbleOfAny | Tools/BootLoader/bootloader1mbps.c:25-29 | the digit every character is read as |
| BootLoader.Serve | Tools/BootLoader/bootloader1mbps.c:56-200 | the loop over the local variables reaches the state of the specified run |
| SRecordFile.RecordLoads | Tools/BootLoader/bootloader1mbps.c:63-200 | a printed S0 record, its fields in hex or any comment, an S3 or an S7 record in either case of digits is stored, sets the entry, and leaves the loader ready |
| SRecordFile.EntryIsNamedIffNoData | Tools/BootLoader/bootloader1mbps.c:176-196 | an S7 record sets the entry it names if and only if it carries no data |
| SRecordFile.FileLoads | Tools/BootLoader/bootloader1mbps.c:63-200 | a printed file with any ignorable characters between records writes its data in order and leaves the last S7 address |
| SRecordFile.FileBoots | Tools/BootLoader/bootloader1mbps.c:62-82 | followed by g or G it branches there, from a fresh loader, with exactly those writes made |
| SRecordFile.StoredReadsBack | Tools/BootLoader/bootloader1mbps.c:190-195 | after a record's writes memory holds its data at its addresses, wrapped at 32 bits or not |
| SRecordFile.FileInMemory | Tools/BootLoader/bootloader1mbps.c:164-196 | after a file's writes memory holds at every address the byte of the last record that has one there, and what it held where none has |
| SRecordFile.HexIsQuiet | Tools/BootLoader/bootloader1mbps.c:63-92 | hex digits are among the characters the loader ignores, so the fields of an S0 record are |
| SRecordFile.OneDigitChangesSum | Tools/BootLoader/bootloader1mbps.c:25-29 | one digit of another value changes the sum modulo 256 and not the count byte |
| SRecordFile.OneDigitDetected | Tools/BootLoader/bootloader1mbps.c:121-197 | one digit of another value in the address, data or checksum of an accepted record always ends in the checksum error, whatever follows |
| Trs80Cmd.RecordAdvances | PiSw/src/FileFormats/McTRS80CmdFormat.cpp:20-93 | every record moves the position past its two header bytes and further, on any bytes |
| Trs80Cmd.Proc | PiSw/src/FileFormats/McTRS80CmdFormat.cpp:15-95 | on any bytes the loop terminates and issues the events of the specified record sequence |
| Trs80CmdFile.RecordRead | PiSw/src/FileFormats/McTRS80CmdFormat.cpp:25-44 | a printed record is read as what it means, wrapped length codes 0, 1 and 2 undone |
| Trs80CmdFile.FileRead | PiSw/src/FileFormats/McTRS80CmdFormat.cpp:15-95 | a printed file with a two-byte exec record at most at its end issues exactly its segments and program counters, in order, and reads nothing behind its end |
| Trs80CmdFile.LoadedLength | PiSw/src/FileFormats/McTRS80CmdFormat.cpp:25-41 | a load record is read with its code, but less than the file is long, less two, and 256 more for 0, 1 and 2 |
| Trs80CmdFile.TruncatedLoad | PiSw/src/FileFormats/McTRS80CmdFormat.cpp:25 | a load record cut short is read three bytes shorter than the file |
| Trs80CmdFile.StopRecord | PiSw/src/FileFormats/McTRS80CmdFormat.cpp:69-74 | a record with code 3 ends the loop, whatever follows |
| Trs80CmdFile.ExecRecord | PiSw/src/FileFormats/McTRS80CmdFormat.cpp:55-62 | a two-byte exec record sets the program counter and moves on six bytes, two more than it has |
| Trs80CmdFile.ExecResumes | PiSw/src/FileFormats/McTRS80CmdFormat.cpp:55-62 | a file with a two-byte exec record does the records before it and sets the program counter, and reads on from the third byte behind it; its meaning is kept if and only if that reads as the rest means |
| Trs80CmdFile.ExecMustBeLast | PiSw/src/FileFormats/McTRS80CmdFormat.cpp:55-93 | with less than two bytes to spare in the records behind it, the meaning is kept without reading behind the file if and only if there are none |
| Trs80CmdFile.FewBytesBehindExec | PiSw/src/FileFormats/McTRS80CmdFormat.cpp:55-93 | up to four bytes behind it are never looked at: the meaning is kept if and only if they mean nothing |
| Trs80CmdFile.AddressByteStops | PiSw/src/FileFormats/McTRS80CmdFormat.cpp:69-74 | a load record behind it whose address ends in 3 ends the loop: it and all that follows are lost |
| Trs80CmdFile.SkipBehindExec | PiSw/src/FileFormats/McTRS80CmdFormat.cpp:85-93 | the body of a skipped record behind it is read as records: the meaning is kept if and only if those mean nothing |
| Trs80CmdFile.EventsPaid | PiSw/src/FileFormats/McTRS80CmdFormat.cpp:20-93 | reading inside the file brings about no more than the bytes read can pay for |

## Left out

- The text of command headers: JSON lookup, number parsing and the other commands of `processCommand`. Rendering and parsing a header are function parameters; the upload results ask only that they agree on the headers of that upload, with no zero in the text and under 2000 characters.
- Truncation of long file names and types (CommandHandler.h:153-154): part of header parsing.
- The ESP32's uploader beyond the frames of one upload: its timeouts, the fields of the request it adds to the start header, and the command it may send afterwards. Its headers are whatever the upload's renderer writes.
- The allocator, the clock, the UART and the sockets. An allocation's outcome is a parameter that may be failure; a timeout is an input of `Service`; replies and hand-overs are logged, and which socket takes a file is not modelled.
- Callbacks that are missing: the source skips them, the model always logs.
- Wrap-around of the 32-bit statistics and send counters, and signed overflow of block start plus length, which are mathematical integers here. The boot loader's 32-bit arithmetic is modelled.
- `PyCRC`: a library, taken to compute the check sequence of MiniHDLC from 0xFFFF, high byte first. PyCRC is not part of this model.
- Which bytes decode as text is a parameter. Stripping trailing zeros from the text, console output, serial reads and threads are not modelled; the reader thread is the run up to its first exception.
- The hardware debugger's receiver with its text callback as well: it reports through the binary callback and then decodes, as the tools' does. The model has it with the binary callback alone.
- What an over-long frame leaves behind beyond the discard itself and the invariant.
- HdlcReception.CorruptFrameRejected: covers bursts up to sixteen bits, odd numbers of wrong bits and two wrong bits; four or more wrong bits that are wider apart can pass any 16-bit check.
- UploadLink.NoisyLine: a damaged frame is one whose unescaped bytes were changed between intact flags; damage that creates or removes flags or escapes on the wire is not described, beyond `Resynchronises` from whatever it leaves.
- HdlcBitCarry.CarriedRunIff: says when the bytes between two flags come through, not what a garbled frame may be taken for.
- UploadLink.EndToEnd: start and end frames arrive, no timeout falls between them and memory can be had; `NoMemoryNoAnswer` and `RunInvariant` say what holds otherwise.
- BootLoader.Serve: the characters received so far are a finite input, and a branch is final, as is leaving the loop; start-up and error messages on the UART are not modelled.
- Trs80CmdFile.ExecMustBeLast: with two or more bytes to spare behind the exec record, the bytes there decide, because the loop runs on them as records: `SkipBehindExec` has files of both kinds. A load record can also come out right by way of bytes from behind the file, which is why the statement is about reading inside it.
- Trs80Cmd.Proc: the source may read behind the end of the file; memory there is whatever the function parameter says.
- Bus control, Z80 emulation glue, display, keyboard, the network protocols, SNA, TZX and font formats: hardware, other libraries, or straight-line copying.
