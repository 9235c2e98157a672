/** Printed /CMD files and what the record loop makes of them. */
module Trs80CmdFile {
  import opened Trs80Cmd

  type Byte = b: int | 0 <= b < 256
  type Word16 = w: int | 0 <= w < 0x1_0000

  /** Records that load memory, set the program counter with one byte or two, or are skipped. */
  datatype Item =
    | Load(addr: Word16, data: seq<Byte>)
    | Exec8(low: Byte)
    | Exec16(pc: Word16)
    | Skip(code: Byte, body: seq<Byte>)

  predicate Printable(r: Item) {
    match r
    case Load(addr, data) => 1 <= |data| <= 256
    case Exec8(low) => true
    case Exec16(pc) => true
    case Skip(code, body) => code != 1 && code != 3 && (code == 2 ==> |body| >= 3) && 1 <= |body| <= 256
  }

  function Print(r: Item): (t: seq<Byte>)
    requires Printable(r)
    ensures |t| >= 3
  {
    match r
    case Load(addr, data) => [1, (|data| + 2) % 256, addr % 256, addr / 256] + data
    case Exec8(low) => [2, 1, low]
    case Exec16(pc) => [2, 2, pc % 256, pc / 256]
    case Skip(code, body) => [code, |body| % 256] + body
  }

  predicate AllPrintable(items: seq<Item>) {
    forall i :: 0 <= i < |items| ==> Printable(items[i])
  }

  function PrintFile(items: seq<Item>): seq<Byte>
    requires AllPrintable(items)
  {
    if items == [] then [] else Print(items[0]) + PrintFile(items[1..])
  }

  function Meaning(r: Item): seq<Event> {
    match r
    case Load(addr, data) => [Segment(addr, data)]
    case Exec8(low) => [Registers(low)]
    case Exec16(pc) => [Registers(pc)]
    case Skip(code, body) => []
  }

  function FileMeaning(items: seq<Item>): seq<Event> {
    if items == [] then [] else Meaning(items[0]) + FileMeaning(items[1..])
  }

  /** No two-byte exec record. */
  predicate ExecFree(items: seq<Item>) {
    forall i :: 0 <= i < |items| ==> !items[i].Exec16?
  }

  /** These bytes stand in memory at a position. */
  ghost predicate Holds(mem: int -> int, pos: int, t: seq<Byte>) {
    forall i :: 0 <= i < |t| ==> mem(pos + i) == t[i]
  }

  lemma HoldsParts(mem: int -> int, pos: int, a: seq<Byte>, b: seq<Byte>)
    ensures Holds(mem, pos, a + b) <==> Holds(mem, pos, a) && Holds(mem, pos + |a|, b)
  {
    var t := a + b;
    if Holds(mem, pos, t) {
      forall i | 0 <= i < |a| ensures mem(pos + i) == a[i] {
        assert t[i] == a[i];
      }
      forall i | 0 <= i < |b| ensures mem(pos + |a| + i) == b[i] {
        assert mem(pos + (|a| + i)) == t[|a| + i];
      }
    }
    if Holds(mem, pos, a) && Holds(mem, pos + |a|, b) {
      forall i | 0 <= i < |t| ensures mem(pos + i) == t[i] {
        if i >= |a| {
          assert mem(pos + |a| + (i - |a|)) == b[i - |a|];
        }
      }
    }
  }

  lemma {:induction false} FileConcat(a: seq<Item>, b: seq<Item>)
    requires AllPrintable(a) && AllPrintable(b)
    ensures AllPrintable(a + b)
    ensures PrintFile(a + b) == PrintFile(a) + PrintFile(b)
    ensures FileMeaning(a + b) == FileMeaning(a) + FileMeaning(b)
    decreases |a|
  {
    hide Print, Meaning, Printable;
    if a == [] {
      assert a + b == b;
    } else {
      assert (a + b)[1..] == a[1..] + b;
      FileConcat(a[1..], b);
    }
  }

  lemma FileOne(r: Item)
    requires Printable(r)
    ensures AllPrintable([r]) && PrintFile([r]) == Print(r) && FileMeaning([r]) == Meaning(r)
  {
    hide Print, Meaning, Printable;
    assert [r][1..] == [];
  }

  // ---- Reading one record ----

  lemma LoadRead(mem: int -> int, dataLen: int, pos: int, addr: Word16, data: seq<Byte>)
    requires Bytewise(mem) && 1 <= |data| <= 256 && 0 <= pos && pos + 4 + |data| <= dataLen
    requires Holds(mem, pos, Print(Load(addr, data)))
    ensures mem(pos) == 1 && LoadLength(CodedLength(mem(pos + 1), dataLen)) == |data|
    ensures Record(mem, dataLen, pos) == ([Segment(addr, data)], pos + 4 + |data|)
  {
    var n, t := |data|, Print(Load(addr, data));
    HoldsParts(mem, pos, [1, (n + 2) % 256, addr % 256, addr / 256], data);
    assert mem(pos + 0) == t[0] && mem(pos + 1) == t[1] && mem(pos + 2) == t[2] && mem(pos + 3) == t[3];
    WrappedLength(n, dataLen);
    assert Bytes(mem, pos + 4, n) == data;
  }

  /** The coded length of a load record counts two more bytes than its data, modulo 256. */
  lemma WrappedLength(n: int, dataLen: int)
    requires 1 <= n <= 256 && n + 4 <= dataLen
    ensures LoadLength(CodedLength((n + 2) % 256, dataLen)) == n
  {
    assert (n + 2) % 256 == if n < 254 then n + 2 else n - 254;
  }

  lemma SkipRead(mem: int -> int, dataLen: int, pos: int, code: Byte, body: seq<Byte>)
    requires Bytewise(mem) && Printable(Skip(code, body)) && 0 <= pos && pos + 2 + |body| <= dataLen
    requires Holds(mem, pos, Print(Skip(code, body)))
    ensures mem(pos) == code && Record(mem, dataLen, pos) == ([], pos + 2 + |body|)
  {
    var t := Print(Skip(code, body));
    assert mem(pos + 0) == t[0] && mem(pos + 1) == t[1];
    assert CodedLength(|body| % 256, dataLen) == |body|;
  }

  /** One printed record is read as what it means, its wrapped length code undone, inside the file. */
  lemma RecordRead(mem: int -> int, dataLen: int, pos: int, r: Item)
    requires Bytewise(mem) && Printable(r) && !r.Exec16? && 0 <= pos && pos + |Print(r)| <= dataLen
    requires Holds(mem, pos, Print(r))
    ensures mem(pos) != 3 && Record(mem, dataLen, pos) == (Meaning(r), pos + |Print(r)|)
    ensures !LooksBehind(mem, dataLen, pos)
  {
    match r
    case Load(addr, data) =>
      LoadRead(mem, dataLen, pos, addr, data);
    case Exec8(low) =>
      var t := Print(r);
      assert mem(pos + 0) == t[0] && mem(pos + 1) == t[1] && mem(pos + 2) == t[2];
    case Skip(code, body) =>
      SkipRead(mem, dataLen, pos, code, body);
  }

  /** A two-byte exec record sets the program counter, and the loop resumes six bytes on, two bytes
      behind the end of the record. */
  lemma ExecRecord(mem: int -> int, dataLen: int, pos: int, pc: Word16)
    requires Bytewise(mem) && 0 <= pos && pos + 4 <= dataLen && Holds(mem, pos, Print(Exec16(pc)))
    ensures mem(pos) == 2 && Record(mem, dataLen, pos) == ([Registers(pc)], pos + 6)
    ensures !LooksBehind(mem, dataLen, pos)
  {
    var t := Print(Exec16(pc));
    assert mem(pos + 0) == t[0] && mem(pos + 1) == t[1] && mem(pos + 2) == t[2] && mem(pos + 3) == t[3];
  }

  // ---- Reading a file ----

  /** The record at a position takes bytes from behind the end of the file. */
  predicate LooksBehind(mem: int -> int, dataLen: int, pos: int) {
    var code, length := mem(pos), CodedLength(mem(pos + 1), dataLen);
    || (code == 1 && pos + 4 + LoadLength(length) > dataLen)
    || (code == 2 && length == 2 && pos + 4 > dataLen)
  }

  /** Some record read from a position on does. */
  ghost predicate ReadsBehind(mem: int -> int, dataLen: int, pos: int)
    requires pos >= 0 && Bytewise(mem)
    decreases dataLen - pos
  {
    if pos >= dataLen - 2 || mem(pos) == 3 then false else
    RecordAdvances(mem, dataLen, pos);
    LooksBehind(mem, dataLen, pos) || ReadsBehind(mem, dataLen, Record(mem, dataLen, pos).1)
  }

  lemma ReadsBehindUnfold(mem: int -> int, dataLen: int, pos: int)
    requires 0 <= pos < dataLen - 2 && Bytewise(mem) && mem(pos) != 3
    ensures var next := Record(mem, dataLen, pos).1;
      && next > pos + 2
      && ReadsBehind(mem, dataLen, pos) == (LooksBehind(mem, dataLen, pos) || ReadsBehind(mem, dataLen, next))
  {
    hide Record, LooksBehind;
    RecordAdvances(mem, dataLen, pos);
  }

  lemma ParseNext(mem: int -> int, dataLen: int, pos: int)
    requires 0 <= pos < dataLen - 2 && Bytewise(mem) && mem(pos) != 3
    ensures var (events, next) := Record(mem, dataLen, pos);
      next > pos + 2 && Parse(mem, dataLen, pos) == events + Parse(mem, dataLen, next)
  {
    hide Record, Parse;
    ParseUnfold(mem, dataLen, pos, []);
    var (events, next) := Record(mem, dataLen, pos);
    assert [] + Parse(mem, dataLen, pos) == Parse(mem, dataLen, pos) && [] + events == events;
  }

  /** Records without a two-byte exec record are read as what they mean, and the loop goes on right
      behind them. */
  lemma {:induction false} RecordsRead(mem: int -> int, dataLen: int, pos: int, items: seq<Item>)
    requires Bytewise(mem) && AllPrintable(items) && ExecFree(items) && 0 <= pos
    requires pos + |PrintFile(items)| <= dataLen && Holds(mem, pos, PrintFile(items))
    ensures var next := pos + |PrintFile(items)|;
      && Parse(mem, dataLen, pos) == FileMeaning(items) + Parse(mem, dataLen, next)
      && ReadsBehind(mem, dataLen, pos) == ReadsBehind(mem, dataLen, next)
    decreases |items|
  {
    hide Parse, Record, Print, Meaning, ReadsBehind, LooksBehind, Holds;
    if items == [] {
      var p := Parse(mem, dataLen, pos);
      assert [] + p == p;
    } else {
      var r, rest := Print(items[0]), PrintFile(items[1..]);
      HoldsParts(mem, pos, r, rest);
      RecordRead(mem, dataLen, pos, items[0]);
      ParseNext(mem, dataLen, pos);
      ReadsBehindUnfold(mem, dataLen, pos);
      RecordsRead(mem, dataLen, pos + |r|, items[1..]);
    }
  }

  lemma EndOfFile(mem: int -> int, dataLen: int, pos: int)
    requires pos >= 0 && pos >= dataLen - 2 && Bytewise(mem)
    ensures Parse(mem, dataLen, pos) == [] && !ReadsBehind(mem, dataLen, pos)
  {
  }

  /** A file that holds a two-byte exec record, and what stands before and behind it. */
  function WithExec(before: seq<Item>, pc: Word16, rest: seq<Item>): seq<Item> {
    before + [Exec16(pc)] + rest
  }

  ghost predicate FileWithExec(mem: int -> int, before: seq<Item>, pc: Word16, rest: seq<Item>) {
    && Bytewise(mem) && AllPrintable(WithExec(before, pc, rest)) && ExecFree(before)
    && Holds(mem, 0, PrintFile(WithExec(before, pc, rest)))
  }

  lemma WithExecParts(mem: int -> int, before: seq<Item>, pc: Word16, rest: seq<Item>)
    requires FileWithExec(mem, before, pc, rest)
    ensures Bytewise(mem)
    ensures AllPrintable(before) && AllPrintable(rest) && AllPrintable(WithExec(before, pc, rest))
    ensures var items, n := WithExec(before, pc, rest), |PrintFile(before)|;
      && |PrintFile(items)| == n + 4 + |PrintFile(rest)|
      && FileMeaning(items) == FileMeaning(before) + [Registers(pc)] + FileMeaning(rest)
      && Holds(mem, 0, PrintFile(before)) && Holds(mem, n, Print(Exec16(pc)))
      && Holds(mem, n + 4, PrintFile(rest))
  {
    hide *;
    PrintableParts(before + [Exec16(pc)], rest);
    PrintableParts(before, [Exec16(pc)]);
    WithExecMeans(mem, before, pc, rest);
    FileConcat(before, [Exec16(pc)]);
    FileConcat(before + [Exec16(pc)], rest);
    ExecPrinted(pc);
    FileOne(Exec16(pc));
    HoldsParts(mem, 0, PrintFile(before) + Print(Exec16(pc)), PrintFile(rest));
    HoldsParts(mem, 0, PrintFile(before), Print(Exec16(pc)));
  }

  lemma WithExecMeans(mem: int -> int, before: seq<Item>, pc: Word16, rest: seq<Item>)
    requires FileWithExec(mem, before, pc, rest)
    ensures Bytewise(mem)
    ensures AllPrintable(before + [Exec16(pc)] + rest) && WithExec(before, pc, rest) == before + [Exec16(pc)] + rest
    ensures Holds(mem, 0, PrintFile(before + [Exec16(pc)] + rest))
  {
  }

  lemma PrintableParts(a: seq<Item>, b: seq<Item>)
    ensures AllPrintable(a + b) ==> AllPrintable(a) && AllPrintable(b)
  {
    hide Printable;
    assert forall i :: 0 <= i < |a| ==> (a + b)[i] == a[i];
    assert forall i :: 0 <= i < |b| ==> (a + b)[|a| + i] == b[i];
  }

  lemma ExecPrinted(pc: Word16)
    ensures Printable(Exec16(pc)) && |Print(Exec16(pc))| == 4 && Meaning(Exec16(pc)) == [Registers(pc)]
  {
  }

  /** What a file with a two-byte exec record does: the records before it, the program counter, and
      then whatever the bytes from the third one behind the record on are read as. */
  lemma ExecResumes(mem: int -> int, before: seq<Item>, pc: Word16, rest: seq<Item>)
    requires FileWithExec(mem, before, pc, rest)
    ensures AllPrintable(before) && AllPrintable(rest)
    ensures var items := WithExec(before, pc, rest); var n, p := |PrintFile(items)|, |PrintFile(before)| + 6;
      && FileMeaning(items) == FileMeaning(before) + [Registers(pc)] + FileMeaning(rest)
      && Parse(mem, n, 0) == FileMeaning(before) + [Registers(pc)] + Parse(mem, n, p)
      && ReadsBehind(mem, n, 0) == ReadsBehind(mem, n, p)
      && (Parse(mem, n, 0) == FileMeaning(items) <==> Parse(mem, n, p) == FileMeaning(rest))
  {
    hide PrintFile, FileMeaning, Parse, Record, Holds, Print, ReadsBehind, LooksBehind, AllPrintable;
    WithExecParts(mem, before, pc, rest);
    var n, at := |PrintFile(WithExec(before, pc, rest))|, |PrintFile(before)|;
    RecordsRead(mem, n, 0, before);
    ExecRecord(mem, n, at, pc);
    ParseNext(mem, n, at);
    ReadsBehindUnfold(mem, n, at);
    var a, x, y := FileMeaning(before) + [Registers(pc)], Parse(mem, n, at + 6), FileMeaning(rest);
    assert FileMeaning(before) + ([Registers(pc)] + x) == a + x;
    assert x == (a + x)[|a|..] && y == (a + y)[|a|..];
  }

  /** A printed file issues exactly its segments and program counters, in order, when a two-byte exec
      record stands only at its end. */
  lemma FileRead(mem: int -> int, items: seq<Item>)
    requires Bytewise(mem) && AllPrintable(items) && Holds(mem, 0, PrintFile(items))
    requires items == [] || ExecFree(items[..|items| - 1])
    ensures Parse(mem, |PrintFile(items)|, 0) == FileMeaning(items)
    ensures !ReadsBehind(mem, |PrintFile(items)|, 0)
  {
    hide Parse, FileMeaning, ReadsBehind, Holds, Printable, PrintFile;
    var n := |PrintFile(items)|;
    if items == [] || !items[|items| - 1].Exec16? {
      RecordsRead(mem, n, 0, items);
      EndOfFile(mem, n, n);
      assert FileMeaning(items) + [] == FileMeaning(items);
    } else {
      var before, pc := items[..|items| - 1], items[|items| - 1].pc;
      assert items == WithExec(before, pc, []);
      WithExecParts(mem, before, pc, []);
      ExecResumes(mem, before, pc, []);
      NothingPrinted();
      EndOfFile(mem, n, |PrintFile(before)| + 6);
    }
  }

  lemma NothingPrinted()
    ensures PrintFile([]) == [] && FileMeaning([]) == []
  {
  }

  // ---- Records behind a two-byte exec record ----

  /** At most four bytes behind the exec record are never looked at: the meaning is kept exactly when
      they mean nothing. */
  lemma FewBytesBehindExec(mem: int -> int, before: seq<Item>, pc: Word16, rest: seq<Item>)
    requires FileWithExec(mem, before, pc, rest) && AllPrintable(rest) && |PrintFile(rest)| <= 4
    ensures var items := WithExec(before, pc, rest);
      Parse(mem, |PrintFile(items)|, 0) == FileMeaning(items) <==> FileMeaning(rest) == []
  {
    hide PrintFile, FileMeaning, Parse, Holds, ReadsBehind;
    WithExecParts(mem, before, pc, rest);
    ExecResumes(mem, before, pc, rest);
    EndOfFile(mem, |PrintFile(WithExec(before, pc, rest))|, |PrintFile(before)| + 6);
  }

  /** Bytes a file needs to bring these events about. */
  function Cost(events: seq<Event>): nat {
    if events == [] then 0 else
    Cost(events[..|events| - 1]) +
      match events[|events| - 1]
      case Segment(addr, bytes) => 4 + |bytes|
      case Registers(pc) => if pc < 256 then 3 else 4
  }

  lemma {:induction false} CostConcat(a: seq<Event>, b: seq<Event>)
    ensures Cost(a + b) == Cost(a) + Cost(b)
  {
    if b == [] {
      assert a + b == a;
    } else {
      var n := |b| - 1;
      CostConcat(a, b[..n]);
      assert (a + b)[..|a + b| - 1] == a + b[..n];
    }
  }

  lemma CostOne(e: Event)
    ensures Cost([e]) == match e
      case Segment(addr, bytes) => 4 + |bytes|
      case Registers(pc) => if pc < 256 then 3 else 4
  {
    assert [e][..0] == [];
  }

  lemma RecordCost(mem: int -> int, dataLen: int, pos: int)
    requires 0 <= pos < dataLen - 2 && Bytewise(mem) && !LooksBehind(mem, dataLen, pos)
    ensures var (events, next) := Record(mem, dataLen, pos);
      pos + Cost(events) <= next && pos + Cost(events) <= dataLen
  {
    hide Cost;
    var (events, next) := Record(mem, dataLen, pos);
    if events == [] {
      NoCost();
    } else {
      CostOne(events[0]);
      assert events == [events[0]];
    }
  }

  lemma NoCost()
    ensures Cost([]) == 0
  {
  }

  /** Reading inside the file never brings about more than the bytes read can pay for. */
  lemma {:induction false} EventsPaid(mem: int -> int, dataLen: int, pos: int)
    requires Bytewise(mem) && 0 <= pos && !ReadsBehind(mem, dataLen, pos)
    ensures Cost(Parse(mem, dataLen, pos)) <= if pos <= dataLen then dataLen - pos else 0
    decreases dataLen - pos
  {
    hide Cost, Record, Parse, ReadsBehind, LooksBehind;
    if pos >= dataLen - 2 {
      EndOfFile(mem, dataLen, pos);
      NoCost();
    } else if mem(pos) == 3 {
      ParseUnfold(mem, dataLen, pos, []);
      assert [] + Parse(mem, dataLen, pos) == Parse(mem, dataLen, pos);
      NoCost();
    } else {
      ReadsBehindUnfold(mem, dataLen, pos);
      ParseNext(mem, dataLen, pos);
      var (events, next) := Record(mem, dataLen, pos);
      RecordCost(mem, dataLen, pos);
      EventsPaid(mem, dataLen, next);
      CostConcat(events, Parse(mem, dataLen, next));
    }
  }

  /** Bytes of a record that its meaning could do without. */
  function Spare(r: Item): nat {
    match r
    case Skip(code, body) => 2 + |body|
    case Exec16(pc) => if pc < 256 then 1 else 0
    case _ => 0
  }

  function AllSpare(items: seq<Item>): nat {
    if items == [] then 0 else Spare(items[0]) + AllSpare(items[1..])
  }

  lemma {:induction false} MeaningCost(items: seq<Item>)
    requires AllPrintable(items)
    ensures Cost(FileMeaning(items)) + AllSpare(items) == |PrintFile(items)|
    decreases |items|
  {
    hide Cost;
    if items == [] {
      NoCost();
    } else {
      CostConcat(Meaning(items[0]), FileMeaning(items[1..]));
      RecordSpare(items[0]);
      MeaningCost(items[1..]);
    }
  }

  lemma RecordSpare(r: Item)
    requires Printable(r)
    ensures Cost(Meaning(r)) + Spare(r) == |Print(r)|
  {
    hide Cost;
    if r.Skip? {
      NoCost();
    } else {
      CostOne(Meaning(r)[0]);
      assert Meaning(r) == [Meaning(r)[0]];
    }
  }

  /** With less than two bytes to spare behind it, a two-byte exec record always does harm: the file means
      what it says, without a byte from behind its end, exactly when nothing follows. */
  lemma ExecMustBeLast(mem: int -> int, before: seq<Item>, pc: Word16, rest: seq<Item>)
    requires FileWithExec(mem, before, pc, rest) && AllSpare(rest) < 2
    ensures var items := WithExec(before, pc, rest); var n := |PrintFile(items)|;
      Parse(mem, n, 0) == FileMeaning(items) && !ReadsBehind(mem, n, 0) <==> rest == []
  {
    hide PrintFile, FileMeaning, Parse, Holds, ReadsBehind, Cost, AllSpare, AllPrintable;
    WithExecParts(mem, before, pc, rest);
    ExecResumes(mem, before, pc, rest);
    var n, p := |PrintFile(WithExec(before, pc, rest))|, |PrintFile(before)| + 6;
    if rest == [] {
      NothingPrinted();
      EndOfFile(mem, n, p);
    } else {
      SomethingPrinted(rest);
      MeaningCost(rest);
      if !ReadsBehind(mem, n, p) {
        EventsPaid(mem, n, p);
      }
    }
  }

  lemma SomethingPrinted(items: seq<Item>)
    requires AllPrintable(items) && items != []
    ensures |PrintFile(items)| >= 3
  {
  }

  /** A load record whose address ends in 3 stops the loop: it and all that follows are lost. */
  lemma AddressByteStops(mem: int -> int, before: seq<Item>, pc: Word16, addr: Word16, data: seq<Byte>,
                         more: seq<Item>)
    requires FileWithExec(mem, before, pc, [Load(addr, data)] + more) && addr % 256 == 3
    ensures var items := WithExec(before, pc, [Load(addr, data)] + more);
      && AllPrintable(before)
      && Parse(mem, |PrintFile(items)|, 0) == FileMeaning(before) + [Registers(pc)]
      && |Parse(mem, |PrintFile(items)|, 0)| < |FileMeaning(items)|
  {
    hide PrintFile, FileMeaning, Parse, ReadsBehind, AllPrintable, Holds, Record;
    var rest := [Load(addr, data)] + more;
    WithExecParts(mem, before, pc, rest);
    ExecResumes(mem, before, pc, rest);
    var n, p := |PrintFile(WithExec(before, pc, rest))|, |PrintFile(before)| + 6;
    FirstLoad(mem, p - 2, addr, data, more);
    ParseUnfold(mem, n, p, []);
    assert [] + Parse(mem, n, p) == Parse(mem, n, p);
    assert FileMeaning(before) + [Registers(pc)] + [] == FileMeaning(before) + [Registers(pc)];
  }

  lemma FirstLoad(mem: int -> int, pos: int, addr: Word16, data: seq<Byte>, more: seq<Item>)
    requires AllPrintable([Load(addr, data)] + more) && Holds(mem, pos, PrintFile([Load(addr, data)] + more))
    ensures mem(pos + 2) == addr % 256 && |PrintFile([Load(addr, data)] + more)| >= 5
    ensures |FileMeaning([Load(addr, data)] + more)| >= 1
  {
    var rest := [Load(addr, data)] + more;
    var t := PrintFile(rest);
    assert rest[0] == Load(addr, data);
    assert t[2] == addr % 256;
  }

  /** A skipped record loses its header, so that its body is read as records: the meaning is kept
      exactly when those mean nothing. */
  lemma SkipBehindExec(mem: int -> int, before: seq<Item>, pc: Word16, code: Byte, inner: seq<Item>,
                       more: seq<Item>)
    requires AllPrintable(inner) && ExecFree(inner) && ExecFree(more)
    requires FileWithExec(mem, before, pc, [Skip(code, PrintFile(inner))] + more)
    ensures AllPrintable(before) && AllPrintable(more)
    ensures var items := WithExec(before, pc, [Skip(code, PrintFile(inner))] + more);
      && Parse(mem, |PrintFile(items)|, 0)
         == FileMeaning(before) + [Registers(pc)] + (FileMeaning(inner) + FileMeaning(more))
      && (Parse(mem, |PrintFile(items)|, 0) == FileMeaning(items) <==> FileMeaning(inner) == [])
  {
    hide *;
    var skip := Skip(code, PrintFile(inner));
    WithExecParts(mem, before, pc, [skip] + more);
    ExecResumes(mem, before, pc, [skip] + more);
    var n, p := |PrintFile(WithExec(before, pc, [skip] + more))|, |PrintFile(before)| + 6;
    PrintableParts([skip], more);
    PrintableSkip(skip);
    FileConcat([skip], more);
    FileOne(skip);
    SkipPrinted(code, PrintFile(inner));
    HoldsParts(mem, p - 2, Print(skip), PrintFile(more));
    HoldsParts(mem, p - 2, [code, |PrintFile(inner)| % 256], PrintFile(inner));
    RecordsRead(mem, n, p, inner);
    RecordsRead(mem, n, p + |PrintFile(inner)|, more);
    EndOfFile(mem, n, n);
    var x, y := FileMeaning(inner), FileMeaning(more);
    assert x + (y + []) == x + y && [] + y == y;
    assert |x + y| == |x| + |y| && (x == [] ==> x + y == y);
  }

  lemma PrintableSkip(skip: Item)
    requires AllPrintable([skip])
    ensures Printable(skip)
  {
    assert [skip][0] == skip;
  }

  lemma SkipPrinted(code: Byte, body: seq<Byte>)
    requires Printable(Skip(code, body))
    ensures Print(Skip(code, body)) == [code, |body| % 256] + body && Meaning(Skip(code, body)) == []
  {
  }

  // ---- Other records ----

  /** The length a load record is read with, in the file's own numbers: its code, but less than the file
      is long, counts the two address bytes, and 0, 1 and 2 stand for 256 more. */
  lemma LoadedLength(mem: int -> int, dataLen: int, pos: int)
    requires Bytewise(mem) && 0 <= pos < dataLen - 2 && mem(pos) == 1
    ensures var coded := if mem(pos + 1) < dataLen - 1 then mem(pos + 1) else dataLen - 1;
      var length := if coded <= 2 then coded + 254 else coded - 2;
      Record(mem, dataLen, pos)
      == ([Segment(mem(pos + 2) + 256 * mem(pos + 3), Bytes(mem, pos + 4, length))], pos + 4 + length)
  {
  }

  /** So a load record cut short by the end of its file is read three bytes shorter than the file. */
  lemma TruncatedLoad(mem: int -> int, dataLen: int, pos: int)
    requires Bytewise(mem) && 0 <= pos < dataLen - 2 && mem(pos) == 1
    requires dataLen >= 4 && mem(pos + 1) >= dataLen - 1
    ensures |Record(mem, dataLen, pos).0| == 1 && Record(mem, dataLen, pos).0[0].Segment?
    ensures |Record(mem, dataLen, pos).0[0].bytes| == dataLen - 3
  {
    LoadedLength(mem, dataLen, pos);
  }

  /** A record with code 3 ends the loop, whatever follows it. */
  lemma StopRecord(mem: int -> int, dataLen: int, items: seq<Item>)
    requires Bytewise(mem) && AllPrintable(items) && ExecFree(items) && Holds(mem, 0, PrintFile(items))
    requires |PrintFile(items)| <= dataLen && mem(|PrintFile(items)|) == 3
    ensures Parse(mem, dataLen, 0) == FileMeaning(items)
  {
    hide Parse, FileMeaning, PrintFile, ReadsBehind, Holds;
    var n := |PrintFile(items)|;
    RecordsRead(mem, dataLen, 0, items);
    if n >= dataLen - 2 {
      EndOfFile(mem, dataLen, n);
    } else {
      ParseUnfold(mem, dataLen, n, []);
      assert [] + Parse(mem, dataLen, n) == Parse(mem, dataLen, n);
    }
    assert FileMeaning(items) + [] == FileMeaning(items);
  }
}
