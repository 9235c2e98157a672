/** Printed S-record files and what the boot loader makes of them. */
module SRecordFile {
  import opened Wrappers
  import opened SRecord

  // ---- Printing ----

  function HexDigit(n: nat, upper: bool): Char
    requires n < 16
  {
    if n < 10 then 0x30 + n else (if upper then 0x41 else 0x61) + n - 10
  }

  lemma HexDigitRead(n: nat, upper: bool)
    requires n < 16
    ensures Nibble(HexDigit(n, upper)) == n
  {
  }

  type Byte = b: nat | b < 256

  function Hex(bs: seq<Byte>, upper: bool): (t: seq<Char>)
    ensures |t| == 2 * |bs|
  {
    if bs == [] then [] else
    [HexDigit(bs[0] / 16, upper), HexDigit(bs[0] % 16, upper)] + Hex(bs[1..], upper)
  }

  lemma {:induction false} HexRead(bs: seq<Byte>, upper: bool)
    ensures BytesOf(Hex(bs, upper)) == bs
  {
    hide HexDigit, Nibble;
    if bs != [] {
      HexRead(bs[1..], upper);
      var t := Hex(bs, upper);
      assert t[2..] == Hex(bs[1..], upper);
      HexDigitRead(bs[0] / 16, upper);
      HexDigitRead(bs[0] % 16, upper);
    }
  }

  type Address32 = a: int | 0 <= a < WORD

  function AddressBytes(a: Address32): (bs: seq<Byte>)
    ensures |bs| == 4
  {
    [a / 0x100_0000, a / 0x1_0000 % 256, a / 0x100 % 256, a % 256]
  }

  lemma AddressBytesRead(a: Address32)
    ensures Address(AddressBytes(a)) == a
  {
    assert a / 0x100_0000 == a / 0x1_0000 / 256;
    assert a / 0x1_0000 == a / 0x100 / 256;
    Quotient(a / 0x1_0000);
    Quotient(a / 0x100);
    Quotient(a);
  }

  lemma Quotient(n: nat)
    ensures n / 256 * 256 + n % 256 == n
  {
  }

  function WithChecksum(bs: seq<Byte>): (r: seq<Byte>)
    ensures |r| == |bs| + 1
  {
    bs + [255 - Sum(bs) % 256]
  }

  lemma ChecksumCloses(bs: seq<Byte>)
    ensures Sum(WithChecksum(bs)) % 256 == 255
  {
    hide Sum;
    var c: nat := 255 - Sum(bs) % 256;
    SumConcat(bs, [c]);
    SumCons([c]);
    assert [c][1..] == [];
    SumNothing();
  }

  /** S0 with the usual fields or with any comment, S3 with an address and up to 250 bytes, S7 with the
      entry point. */
  datatype Record =
    | Header(bytes: seq<Byte>)
    | Comment(text: seq<Char>)
    | Data(addr: Address32, data: seq<Byte>)
    | Entry(addr: Address32)

  /** Characters the loader ignores between records. */
  predicate Quiet(text: seq<Char>) {
    forall i :: 0 <= i < |text| ==> text[i] != CH_S && text[i] != CH_G && text[i] != CH_LOWER_G
  }

  predicate Printable(r: Record) {
    match r
    case Header(bytes) => |bytes| <= 252
    case Comment(text) => Quiet(text)
    case Data(addr, data) => |data| <= 250
    case Entry(addr) => true
  }

  function Fields(addr: Address32, data: seq<Byte>): (bs: seq<Byte>)
    requires |data| <= 250
    ensures |bs| == |data| + 6
  {
    WithChecksum([|data| + 5] + AddressBytes(addr) + data)
  }

  /** The fields of an S0 record, whose address is two zero bytes. */
  function HeaderFields(bytes: seq<Byte>): seq<Byte>
    requires |bytes| <= 252
  {
    WithChecksum([|bytes| + 3, 0, 0] + bytes)
  }

  function Print(r: Record, upper: bool): seq<Char>
    requires Printable(r)
  {
    match r
    case Header(bytes) => [CH_S, CH_0] + Hex(HeaderFields(bytes), upper)
    case Comment(text) => [CH_S, CH_0] + text
    case Data(addr, data) => [CH_S, CH_3] + Hex(Fields(addr, data), upper)
    case Entry(addr) => [CH_S, CH_7] + Hex(Fields(addr, []), upper)
  }

  // ---- Loading one record ----

  predicate Ready(l: Loader) { l.outcome == Running && l.state == 0 }

  lemma {:induction false} QuietIgnored(l: Loader, text: seq<Char>)
    requires Ready(l) && Quiet(text)
    ensures Run(l, text) == l
    decreases |text|
  {
    if text != [] {
      assert Step(l, text[0]) == l;
      QuietIgnored(l, text[1..]);
    }
  }

  lemma {:induction false} HexIsQuiet(bs: seq<Byte>, upper: bool)
    ensures Quiet(Hex(bs, upper))
  {
    hide HexDigit;
    if bs != [] {
      HexIsQuiet(bs[1..], upper);
      DigitIsQuiet(bs[0] / 16, upper);
      DigitIsQuiet(bs[0] % 16, upper);
    }
  }

  lemma DigitIsQuiet(n: nat, upper: bool)
    requires n < 16
    ensures var c := HexDigit(n, upper); c != CH_S && c != CH_G && c != CH_LOWER_G
  {
  }

  lemma StartRecord(l: Loader, kind: Char)
    requires Ready(l)
    ensures kind == CH_0 ==> Run(l, [CH_S, kind]) == l.(sum := 0)
    ensures kind == CH_3 ==> Run(l, [CH_S, kind]) == l.(sum := 0, kind := 3, state := 2)
    ensures kind == CH_7 ==> Run(l, [CH_S, kind]) == l.(sum := 0, kind := 7, state := 2)
  {
    RunPair(l, CH_S, kind);
  }

  lemma FieldsParts(addr: Address32, data: seq<Byte>)
    requires |data| <= 250
    ensures var bs := Fields(addr, data);
      bs[0] == |data| + 5 && Address(bs[1..5]) == addr && bs[5..|bs| - 1] == data && Sum(bs) % 256 == 255
  {
    hide Sum, AddressBytes;
    var bs := Fields(addr, data);
    ChecksumCloses([|data| + 5] + AddressBytes(addr) + data);
    assert bs[1..5] == AddressBytes(addr);
    AddressBytesRead(addr);
  }

  function Effect(r: Record): seq<Write> {
    if r.Data? then Stored(r.addr, r.data) else []
  }

  function EntryAfter(r: Record, entry: int): int {
    if r.Entry? then r.addr else entry
  }

  lemma RecordLoads(l: Loader, r: Record, upper: bool)
    requires Ready(l) && Printable(r)
    ensures var m := Run(l, Print(r, upper));
      Ready(m) && m.writes == l.writes + Effect(r) && m.entry == EntryAfter(r, l.entry)
  {
    hide Run, Hex, Fields, Stored, Sum, Quiet, Address, BytesOf;
    match r
    case Header(bytes) =>
      HexIsQuiet(HeaderFields(bytes), upper);
      TextIgnored(l, Hex(HeaderFields(bytes), upper));
    case Comment(text) =>
      TextIgnored(l, text);
    case Data(addr, data) =>
      BodyLoads(l, CH_3, addr, data, upper);
    case Entry(addr) =>
      BodyLoads(l, CH_7, addr, [], upper);
      assert Stored(addr, []) == [];
  }

  lemma TextIgnored(l: Loader, text: seq<Char>)
    requires Ready(l) && Quiet(text)
    ensures Run(l, [CH_S, CH_0] + text) == l.(sum := 0)
  {
    hide Run, Quiet;
    RunConcat(l, [CH_S, CH_0], text);
    StartRecord(l, CH_0);
    QuietIgnored(l.(sum := 0), text);
  }

  lemma BodyLoads(l: Loader, kind: Char, addr: Address32, data: seq<Byte>, upper: bool)
    requires Ready(l) && |data| <= 250 && (kind == CH_3 || kind == CH_7)
    ensures var m := Run(l, [CH_S, kind] + Hex(Fields(addr, data), upper));
      && Ready(m) && m.writes == l.writes + Stored(addr, data)
      && m.entry == (if kind == CH_7 then (addr + |data|) % WORD else l.entry)
  {
    hide Run, Hex, Fields, Stored, Sum, Address, BytesOf;
    var text := Hex(Fields(addr, data), upper);
    RunConcat(l, [CH_S, kind], text);
    StartRecord(l, kind);
    HexRead(Fields(addr, data), upper);
    FieldsParts(addr, data);
    RecordOutcome(Run(l, [CH_S, kind]), text);
  }

  /** An S7 record that carries data does not set the entry point it names, but one past its data. */
  lemma EntryIsNamedIffNoData(l: Loader, addr: Address32, data: seq<Byte>, upper: bool)
    requires Ready(l) && |data| <= 250
    ensures Run(l, [CH_S, CH_7] + Hex(Fields(addr, data), upper)).entry == addr <==> data == []
  {
    hide Run, Hex, Fields, Stored;
    BodyLoads(l, CH_7, addr, data, upper);
  }

  // ---- Loading a file ----

  /** A record with the case its digits are printed in and the characters that follow it. */
  datatype Line = Line(record: Record, upper: bool, gap: seq<Char>)

  predicate WellFormed(lines: seq<Line>) {
    forall i :: 0 <= i < |lines| ==> Printable(lines[i].record) && Quiet(lines[i].gap)
  }

  function PrintFile(lines: seq<Line>): seq<Char>
    requires WellFormed(lines)
  {
    if lines == [] then [] else
    var last := lines[|lines| - 1];
    PrintFile(lines[..|lines| - 1]) + Print(last.record, last.upper) + last.gap
  }

  function FileEffect(lines: seq<Line>): seq<Write> {
    if lines == [] then [] else FileEffect(lines[..|lines| - 1]) + Effect(lines[|lines| - 1].record)
  }

  function FileEntry(lines: seq<Line>, entry: int): int {
    if lines == [] then entry else EntryAfter(lines[|lines| - 1].record, FileEntry(lines[..|lines| - 1], entry))
  }

  /** A printed file loads: every data record is stored in order and the last entry record counts. */
  lemma {:induction false} FileLoads(l: Loader, lines: seq<Line>)
    requires Ready(l) && WellFormed(lines)
    ensures var m := Run(l, PrintFile(lines));
      Ready(m) && m.writes == l.writes + FileEffect(lines) && m.entry == FileEntry(lines, l.entry)
  {
    hide Run, Print, Effect, Printable, Quiet;
    if lines == [] {
      RunNothing(l);
    } else {
      var n := |lines| - 1;
      FileLoads(l, lines[..n]);
      var before, line := PrintFile(lines[..n]), lines[n];
      RunConcat(l, before, Print(line.record, line.upper));
      RunConcat(l, before + Print(line.record, line.upper), line.gap);
      RecordLoads(Run(l, before), line.record, line.upper);
      QuietIgnored(Run(Run(l, before), Print(line.record, line.upper)), line.gap);
    }
  }

  /** A fresh loader given a printed file and then `g` branches to the entry point with the file stored. */
  lemma FileBoots(lines: seq<Line>, go: Char)
    requires WellFormed(lines) && (go == CH_G || go == CH_LOWER_G)
    ensures var m := Run(START, PrintFile(lines) + [go]);
      m.outcome == Branched(FileEntry(lines, 0x8000)) && m.writes == FileEffect(lines)
  {
    hide PrintFile, FileEffect, FileEntry;
    FileLoads(START, lines);
    RunConcat(START, PrintFile(lines), [go]);
    var m := Run(START, PrintFile(lines));
    assert [go][1..] == [];
    assert Run(m, [go]) == Step(m, go);
    assert [] + FileEffect(lines) == FileEffect(lines);
  }

  // ---- Memory ----

  /** Memory after a series of byte writes. */
  function Applied(memory: map<int, int>, writes: seq<Write>): map<int, int> {
    if writes == [] then memory
    else Applied(memory, writes[..|writes| - 1])[writes[|writes| - 1].addr := writes[|writes| - 1].data]
  }

  /** The byte these bytes, stored from an address that wraps at 32 bits, put at another. */
  function ByteAt(addr: Address32, data: seq<Byte>, a: Address32): Option<int> {
    var k := (a - addr) % WORD;
    if k < |data| then Some(data[k]) else None
  }

  /** The byte a file puts at an address: the last record that has one there decides. */
  function FileByteAt(lines: seq<Line>, a: Address32): Option<int> {
    if lines == [] then None else
    var r := lines[|lines| - 1].record;
    if r.Data? && ByteAt(r.addr, r.data, a).Some? then ByteAt(r.addr, r.data, a)
    else FileByteAt(lines[..|lines| - 1], a)
  }

  /** What memory holds at an address, if anything. */
  function At(memory: map<int, int>, a: int): Option<int> {
    if a in memory then Some(memory[a]) else None
  }

  function Either(first: Option<int>, second: Option<int>): Option<int> {
    if first.Some? then first else second
  }

  lemma {:induction false} AppliedConcat(memory: map<int, int>, a: seq<Write>, b: seq<Write>)
    ensures Applied(memory, a + b) == Applied(Applied(memory, a), b)
  {
    if b == [] {
      assert a + b == a;
    } else {
      var n := |b| - 1;
      AppliedConcat(memory, a, b[..n]);
      assert (a + b)[..|a + b| - 1] == a + b[..n];
    }
  }

  lemma Offset(addr: Address32, a: Address32, k: nat)
    requires k < WORD
    ensures (addr + k) % WORD == a <==> (a - addr) % WORD == k
  {
  }

  lemma ByteAtAppend(addr: Address32, data: seq<Byte>, b: Byte, a: Address32)
    requires |data| < WORD
    ensures ByteAt(addr, data + [b], a)
         == if (addr + |data|) % WORD == a then Some(b) else ByteAt(addr, data, a)
  {
    Offset(addr, a, |data|);
  }

  lemma StoredAppend(addr: Address32, data: seq<Byte>, b: Byte)
    ensures Stored(addr, data + [b]) == Stored(addr, data) + [Write((addr + |data|) % WORD, b)]
  {
  }

  lemma AppliedOne(memory: map<int, int>, w: Write)
    ensures Applied(memory, [w]) == memory[w.addr := w.data]
  {
    assert [w][..0] == [];
  }

  /** After a record's writes memory holds its bytes, and everywhere else what it held. */
  lemma {:induction false} RecordInMemory(memory: map<int, int>, addr: Address32, data: seq<Byte>, a: Address32)
    requires |data| < WORD
    ensures At(Applied(memory, Stored(addr, data)), a) == Either(ByteAt(addr, data, a), At(memory, a))
  {
    hide Stored, Applied, ByteAt;
    if data == [] {
      NothingStored(memory, addr, a);
    } else {
      var before, b := data[..|data| - 1], data[|data| - 1];
      assert data == before + [b];
      RecordInMemory(memory, addr, before, a);
      ByteAtAppend(addr, before, b, a);
      StoredAppend(addr, before, b);
      var w := Write((addr + |before|) % WORD, b);
      AppliedConcat(memory, Stored(addr, before), [w]);
      AppliedOne(Applied(memory, Stored(addr, before)), w);
    }
  }

  lemma NothingStored(memory: map<int, int>, addr: Address32, a: Address32)
    ensures Applied(memory, Stored(addr, [])) == memory && ByteAt(addr, [], a) == None
  {
  }

  /** So a record reads back, whatever it is stored over and even when its addresses wrap. */
  lemma StoredReadsBack(memory: map<int, int>, addr: Address32, data: seq<Byte>, i: nat)
    requires i < |data| < WORD
    ensures var m, a := Applied(memory, Stored(addr, data)), (addr + i) % WORD; a in m && m[a] == data[i]
  {
    hide Stored, Applied;
    var a: Address32 := (addr + i) % WORD;
    Offset(addr, a, i);
    RecordInMemory(memory, addr, data, a);
  }

  /** After a file memory holds at every address the byte of the last record that has one there, and
      what it held before where none has. */
  lemma {:induction false} FileInMemory(memory: map<int, int>, lines: seq<Line>, a: Address32)
    requires WellFormed(lines)
    ensures At(Applied(memory, FileEffect(lines)), a) == Either(FileByteAt(lines, a), At(memory, a))
  {
    hide Stored, Applied, ByteAt;
    if lines == [] {
      NothingApplied(memory);
    } else {
      var n := |lines| - 1;
      var before, r := FileEffect(lines[..n]), lines[n].record;
      FileInMemory(memory, lines[..n], a);
      AppliedConcat(memory, before, Effect(r));
      NothingApplied(Applied(memory, before));
      if r.Data? {
        assert Printable(r);
        RecordInMemory(Applied(memory, before), r.addr, r.data, a);
      }
    }
  }

  lemma NothingApplied(memory: map<int, int>)
    ensures Applied(memory, []) == memory
  {
  }

  // ---- Damage ----

  lemma {:induction false} SumUpdate(bs: seq<nat>, i: nat, v: nat)
    requires i < |bs|
    ensures Sum(bs[i := v]) == Sum(bs) - bs[i] + v
  {
    if i == 0 {
      assert bs[0 := v][1..] == bs[1..];
    } else {
      assert bs[i := v][1..] == bs[1..][i - 1 := v];
      SumUpdate(bs[1..], i - 1, v);
    }
  }

  lemma {:induction false} BytesOfUpdate(text: seq<Char>, i: nat, c: Char)
    requires i < |text| && |text| % 2 == 0
    ensures BytesOf(text[i := c]) ==
      BytesOf(text)[i / 2 := if i % 2 == 0 then ByteOf(c, text[i + 1]) else ByteOf(text[i - 1], c)]
    decreases |text|
  {
    hide ByteOf, BytesOf;
    var changed := text[i := c];
    BytesOfPair(text);
    BytesOfPair(changed);
    var bs, cs := BytesOf(text), BytesOf(changed);
    assert bs == [bs[0]] + bs[1..] && cs == [cs[0]] + cs[1..];
    if i >= 2 {
      assert changed[2..] == text[2..][i - 2 := c];
      BytesOfUpdate(text[2..], i - 2, c);
    } else {
      assert changed[2..] == text[2..];
    }
  }

  lemma OneDigitInByte(c: Char, d: Char, c': Char, d': Char)
    requires (Nibble(c) != Nibble(c') && d == d') || (c == c' && Nibble(d) != Nibble(d'))
    ensures ByteOf(c, d) != ByteOf(c', d')
  {
    hide Nibble;
  }

  /** A wrong digit changes the sum modulo 256, and leaves the count byte alone. */
  lemma OneDigitChangesSum(text: seq<Char>, i: nat, c: Char)
    requires |text| % 2 == 0 && 2 <= i < |text| && Nibble(c) != Nibble(text[i])
    ensures Sum(BytesOf(text[i := c])) % 256 != Sum(BytesOf(text)) % 256
    ensures BytesOf(text[i := c])[0] == BytesOf(text)[0]
  {
    hide Sum, BytesOf, ByteOf, Nibble;
    BytesOfUpdate(text, i, c);
    var k := i / 2;
    var v := if i % 2 == 0 then ByteOf(c, text[i + 1]) else ByteOf(text[i - 1], c);
    BytesOfAt(text, k);
    var first, second := text[2 * k], text[2 * k + 1];
    OneDigitInByte(first, second, if i % 2 == 0 then c else first, if i % 2 == 0 then second else c);
    SumUpdate(BytesOf(text), k, v);
    CloseSums(Sum(BytesOf(text)), BytesOf(text)[k], v);
  }

  lemma CloseSums(s: int, a: int, b: int)
    requires 0 <= a < 256 && 0 <= b < 256 && a != b
    ensures (s - a + b) % 256 != s % 256
  {
  }

  /** One wrong digit in the address, data or checksum of an accepted record always ends in the
      checksum error, whatever follows. */
  lemma OneDigitDetected(l: Loader, kind: Char, text: seq<Char>, i: nat, c: Char, after: seq<Char>)
    requires Ready(l) && (kind == CH_3 || kind == CH_7)
    requires |text| >= 12 && |text| == 2 * (BytesOf(text)[0] + 1)
    requires Run(l, [CH_S, kind] + text).outcome == Running
    requires 2 <= i < |text| && Nibble(c) != Nibble(text[i])
    ensures Run(l, [CH_S, kind] + text[i := c] + after).outcome == BadChecksum
  {
    hide Run, Sum, BytesOf, Address, Stored, Nibble;
    var wrong := text[i := c];
    var start := Run(l, [CH_S, kind]);
    StartRecord(l, kind);
    RunConcat(l, [CH_S, kind], text);
    RecordOutcome(start, text);
    OneDigitChangesSum(text, i, c);
    RecordOutcome(start, wrong);
    RunConcat(l, [CH_S, kind], wrong);
    RunConcat(l, [CH_S, kind] + wrong, after);
    ErrorsAreFinal(Run(l, [CH_S, kind] + wrong), after);
  }

  lemma {:induction false} BytesOfAt(text: seq<Char>, k: nat)
    requires 2 * k + 1 < |text|
    ensures BytesOf(text)[k] == ByteOf(text[2 * k], text[2 * k + 1])
    decreases |text|
  {
    hide ByteOf;
    BytesOfPair(text);
    if k > 0 {
      BytesOfAt(text[2..], k - 1);
    }
  }

  // ---- Other characters ----

  /** Any type but 0, 3 and 7 stops the loader, whatever follows. */
  lemma OtherTypesStop(l: Loader, kind: Char, after: seq<Char>)
    requires Ready(l) && kind != 0x30 && kind != 0x33 && kind != 0x37
    ensures var r := Run(l, [0x53, kind] + after); r.outcome == BadType && r.writes == l.writes
  {
    hide Run;
    RunPair(l, 0x53, kind);
    RunConcat(l, [0x53, kind], after);
    ErrorsAreFinal(Run(l, [0x53, kind]), after);
  }

  /** So does a count that leaves no room for address and checksum. */
  lemma ShortCountStops(l: Loader, kind: Char, c: Char, d: Char, after: seq<Char>)
    requires Ready(l) && (kind == 0x33 || kind == 0x37) && ByteOf(c, d) < 5
    ensures var r := Run(l, [0x53, kind] + [c, d] + after); r.outcome == BadCount && r.writes == l.writes
  {
    hide Run, ByteOf;
    var start := Run(l, [0x53, kind]);
    StartRecord(l, kind);
    CountByte(start, c, d);
    RunConcat(l, [0x53, kind], [c, d]);
    RunConcat(l, [0x53, kind] + [c, d], after);
    ErrorsAreFinal(Run(start, [c, d]), after);
  }

  /** Digits and letters up to f are read as what they stand for; every other character is some digit. */
  lemma NibbleOfAny(c: Char)
    ensures 0x30 <= c <= 0x39 ==> Nibble(c) == c - 0x30
    ensures 0x41 <= c <= 0x46 ==> Nibble(c) == c - 0x41 + 10
    ensures 0x61 <= c <= 0x66 ==> Nibble(c) == c - 0x61 + 10
    ensures c < 0x30 ==> Nibble(c) == c % 16
    ensures c > 0x39 ==> Nibble(c) == (c + 9) % 16
  {
  }
}
