/** A sender and a receiver object joined by a line of bits. */
module BitLink {
  import opened Crc
  import opened Hdlc
  import opened HdlcReception
  import opened HdlcBits
  import opened HdlcBitReception
  import opened HdlcBitCarry
  import opened MiniHdlc

  /** Every bit the sender has put on the line goes into the receiver, one at a time. */
  method Carry(line: seq<byte>, rx: MiniHdlc)
    requires rx.Valid()
    modifies rx, rx.rxBuffer
    ensures rx.Valid()
    ensures rx.BitState() == BitRun(old(rx.BitState()), line).0
    ensures rx.heard == old(rx.heard) + BitRun(old(rx.BitState()), line).1
  {
    hide BitStep, MiniHdlc.ReceiverValid;
    ghost var s := rx.BitState();
    BitRunNone(s);
    assert line[..0] == [];
    for i := 0 to |line|
      invariant rx.Valid()
      invariant rx.BitState() == BitRun(s, line[..i]).0
      invariant rx.heard == old(rx.heard) + BitRun(s, line[..i]).1
    {
      rx.HandleBit(line[i]);
      assert line[..i + 1][..i] == line[..i];
    }
    assert line[..|line|] == line;
  }

  /** A frame sent by a new sender reaches a new receiver over bits: delivered once, no error counted. */
  method SendOne(payload: seq<byte>, bigEndian: bool) returns (received: seq<seq<byte>>, errors: int)
    requires |payload| + 2 < MAX_FRAME
    ensures received == [payload] && errors == 0
  {
    hide *;
    var tx := new MiniHdlc(bigEndian, true);
    var rx := new MiniHdlc(bigEndian, true);
    tx.SendFrame(payload);
    BitRoundTrip(payload, bigEndian);
    BitwiseFrame(payload, bigEndian);
    ghost var line := EncodeBits(payload, bigEndian, 0).out;
    assert [] + line == line;
    Carry(tx.sent, rx);
    ghost var r := BitRun(START, line).1;
    assert [] + r == r;
    rx.ValidIsReceiverValid();
    rx.LogIsDelivered();
    NoErrors(payload);
    received := rx.received;
    errors := rx.frameCRCErrCount;
  }

  lemma BitwiseFrame(payload: seq<byte>, bigEndian: bool)
    ensures SentFrame(payload, bigEndian, true, 0) == EncodeBits(payload, bigEndian, 0)
  {
    hide EncodeBits, Encode;
  }

  lemma NoErrors(payload: seq<byte>)
    ensures CrcErrors([Runt, Frame(payload)]) == 0
  {
    CrcErrorsAppend([], Runt);
    CrcErrorsAppend([Runt], Frame(payload));
    assert [] + [Runt] == [Runt] && [Runt] + [Frame(payload)] == [Runt, Frame(payload)];
  }
}
