/** The loader of TRS-80 /CMD files: a record loop with wrapped length codes. */
module Trs80Cmd {
  /** What the two callbacks are given. */
  datatype Event = Segment(addr: int, bytes: seq<int>) | Registers(pc: int)

  /** The bytes a callback can see from a position on; the file buffer is memory that goes on behind it. */
  function Bytes(mem: int -> int, pos: int, length: int): (b: seq<int>)
    requires length >= 0
    ensures |b| == length && forall i :: 0 <= i < length ==> b[i] == mem(pos + i)
  {
    seq(length, i requires 0 <= i < length => mem(pos + i))
  }

  /** Length of the record body as coded: clamped to the file length, and 256 when zero. */
  function CodedLength(coded: int, dataLen: int): int {
    var length := if coded < dataLen - 1 then coded else dataLen - 1;
    if length == 0 then 0x100 else length
  }

  /** Length of the data of a load record, whose code counts the two address bytes and wraps. */
  function LoadLength(length: int): int {
    if length < 3 then length + 0xFE else length - 2
  }

  function Word(mem: int -> int, pos: int): int {
    mem(pos) + mem(pos + 1) * 256
  }

  ghost predicate Bytewise(mem: int -> int) {
    forall i :: 0 <= mem(i) < 256
  }

  /** Events of the record at a position, and where the next record starts. */
  function Record(mem: int -> int, dataLen: int, pos: int): (seq<Event>, int)
    requires 0 <= pos < dataLen - 2 && Bytewise(mem)
  {
    var code, length, body := mem(pos), CodedLength(mem(pos + 1), dataLen), pos + 2;
    if code == 1 then
      var loaded := LoadLength(length);
      ([Segment(Word(mem, body), Bytes(mem, body + 2, loaded))], body + 2 + loaded)
    else if code == 2 && length == 1 then ([Registers(mem(body))], body + 1)
    else if code == 2 && length == 2 then ([Registers(Word(mem, body))], body + 2 + 2)
    else ([], body + length)
  }

  lemma RecordAdvances(mem: int -> int, dataLen: int, pos: int)
    requires 0 <= pos < dataLen - 2 && Bytewise(mem)
    ensures Record(mem, dataLen, pos).1 > pos + 2
  {
  }

  /** The events of a whole file from a position on. */
  function Parse(mem: int -> int, dataLen: int, pos: int): seq<Event>
    requires pos >= 0 && Bytewise(mem)
    decreases dataLen - pos
  {
    if pos >= dataLen - 2 || mem(pos) == 3 then [] else
    RecordAdvances(mem, dataLen, pos);
    var (events, next) := Record(mem, dataLen, pos);
    events + Parse(mem, dataLen, next)
  }

  lemma ParseUnfold(mem: int -> int, dataLen: int, pos: int, before: seq<Event>)
    requires 0 <= pos < dataLen - 2 && Bytewise(mem)
    ensures mem(pos) == 3 ==> before + Parse(mem, dataLen, pos) == before
    ensures mem(pos) != 3 ==> var (events, next) := Record(mem, dataLen, pos);
      next > pos + 2 && before + Parse(mem, dataLen, pos) == (before + events) + Parse(mem, dataLen, next)
  {
    hide Record;
    RecordAdvances(mem, dataLen, pos);
  }

  /** The record loop, on any bytes whatever. */
  method Proc(mem: int -> int, dataLen: int) returns (events: seq<Event>)
    requires Bytewise(mem)
    ensures events == Parse(mem, dataLen, 0)
  {
    hide Parse;
    var pos := 0;
    events := [];
    assert events + Parse(mem, dataLen, 0) == Parse(mem, dataLen, 0);
    while pos < dataLen - 2
      invariant 0 <= pos
      invariant events + Parse(mem, dataLen, pos) == Parse(mem, dataLen, 0)
      decreases dataLen - pos
    {
      ParseUnfold(mem, dataLen, pos, events);
      ghost var start, before := pos, events;
      var code := mem(pos);
      var length := mem(pos + 1);
      pos := pos + 2;
      length := if length < dataLen - 1 then length else dataLen - 1;
      if length == 0 {
        length := 0x100;
      }
      match code {
        case 1 =>
          var addr := Word(mem, pos);
          pos := pos + 2;
          if length < 3 {
            length := length + 0xFE;
          } else {
            length := length - 2;
          }
          events := events + [Segment(addr, Bytes(mem, pos, length))];
        case 2 =>
          if length == 1 {
            events := events + [Registers(mem(pos))];
          } else if length == 2 {
            events := events + [Registers(Word(mem, pos))];
            pos := pos + 2;
          }
        case 3 =>
          return;
        case _ =>
      }
      pos := pos + length;
      assert events == before + Record(mem, dataLen, start).0 && pos == Record(mem, dataLen, start).1;
    }
    ParseEnd(mem, dataLen, pos);
    assert events + [] == events;
  }

  lemma ParseEnd(mem: int -> int, dataLen: int, pos: int)
    requires pos >= 0 && pos >= dataLen - 2 && Bytewise(mem)
    ensures Parse(mem, dataLen, pos) == []
  {
  }
}
