/** The S-record boot loader: a state machine fed one character at a time. */
module SRecord {
  const WORD := 0x1_0000_0000

  /** A received character. */
  type Char = c: int | 0 <= c < 256

  const CH_S: Char := 0x53
  const CH_G: Char := 0x47
  const CH_LOWER_G: Char := 0x67
  const CH_0: Char := 0x30
  const CH_3: Char := 0x33
  const CH_7: Char := 0x37

  /** The value of a hex digit; other characters give some nibble too. */
  function Nibble(c: Char): (n: nat)
    ensures n < 16
  {
    if c > 0x39 then (c - 7) % 16 else c % 16
  }

  datatype Outcome = Running | Branched(to: int) | BadType | BadCount | BadChecksum

  datatype Write = Write(addr: int, data: int)

  datatype Loader = Loader(state: int, kind: int, count: int, sum: int, entry: int, addr: int, data: int,
                           writes: seq<Write>, outcome: Outcome)

  const START := Loader(0, 0, 0, 0, 0x8000, 0, 0, [], Running)

  function Shifted(word: int, c: Char): int {
    (word * 16 + Nibble(c)) % WORD
  }

  function Step(l: Loader, ra: Char): Loader {
    if l.outcome != Running then l
    else if l.state == 0 then
      var l1 := if ra == CH_S then l.(sum := 0, state := 1) else l;
      if ra == CH_LOWER_G || ra == CH_G then l1.(outcome := Branched(l1.entry)) else l1
    else if l.state == 1 then
      if ra == CH_0 then l.(state := 0)
      else if ra == CH_3 then l.(kind := 3, state := 2)
      else if ra == CH_7 then l.(kind := 7, state := 2)
      else l.(outcome := BadType)
    else if l.state == 2 then l.(count := Nibble(ra), state := 3)
    else if l.state == 3 then
      var count := Shifted(l.count, ra);
      if count < 5 then l.(count := count, outcome := BadCount)
      else l.(count := count, sum := (l.sum + count % 256) % WORD, addr := 0, state := 4)
    else if l.state == 4 || l.state == 6 || l.state == 8 || l.state == 10 then
      l.(addr := Shifted(l.addr, ra), state := l.state + 1)
    else if l.state == 5 || l.state == 7 || l.state == 9 || l.state == 11 then
      var addr := Shifted(l.addr, ra);
      l.(count := (l.count - 1) % WORD, addr := addr, sum := (l.sum + addr % 256) % WORD, state := l.state + 1)
    else if l.state == 12 then l.(data := Nibble(ra), state := 13)
    else if l.state == 13 then
      var data := Shifted(l.data, ra);
      var sum := (l.sum + data % 256) % WORD;
      var count := (l.count - 1) % WORD;
      if count == 0 then
        var entry := if l.kind == 7 then l.addr else l.entry;
        var l1 := l.(data := data, count := count, entry := entry, sum := sum % 256);
        if sum % 256 != 0xFF then l1.(outcome := BadChecksum) else l1.(state := 0)
      else
        l.(data := data, sum := sum, count := count, writes := l.writes + [Write(l.addr, data)],
           addr := (l.addr + 1) % WORD, state := 12)
    else l
  }

  function Run(l: Loader, text: seq<Char>): Loader
    decreases |text|
  {
    if text == [] then l else Run(Step(l, text[0]), text[1..])
  }

  lemma {:induction false} RunConcat(l: Loader, a: seq<Char>, b: seq<Char>)
    ensures Run(l, a + b) == Run(Run(l, a), b)
    decreases |a|
  {
    hide Step;
    if a == [] {
      assert a + b == b;
    } else {
      assert (a + b)[1..] == a[1..] + b;
      RunConcat(Step(l, a[0]), a[1..], b);
    }
  }

  lemma RunPair(l: Loader, c: Char, d: Char)
    ensures Run(l, [c, d]) == Step(Step(l, c), d)
  {
    hide Step;
    assert [c, d][1..] == [d] && [d][1..] == [];
    assert Run(l, [c, d]) == Run(Step(l, c), [d]);
  }

  // ---- Bytes spelled in hex ----

  function ByteOf(c: Char, d: Char): (b: nat)
    ensures b < 256
  {
    Nibble(c) * 16 + Nibble(d)
  }

  /** The bytes a text spells, two characters each. */
  function BytesOf(text: seq<Char>): (bs: seq<nat>)
    ensures |bs| == |text| / 2
    decreases |text|
  {
    if |text| < 2 then [] else [ByteOf(text[0], text[1])] + BytesOf(text[2..])
  }

  function Sum(bs: seq<nat>): nat {
    if bs == [] then 0 else bs[0] + Sum(bs[1..])
  }

  /** Bytes stored one after another from an address that wraps at 32 bits. */
  function Stored(addr: int, bs: seq<nat>): (w: seq<Write>)
    ensures |w| == |bs|
  {
    seq(|bs|, i requires 0 <= i < |bs| => Write((addr + i) % WORD, bs[i]))
  }

  lemma ShiftedByte(c: Char, d: Char)
    ensures Shifted(Nibble(c), d) == ByteOf(c, d)
  {
  }

  lemma FirstNibble(l: Loader, c: Char)
    requires l.outcome == Running && l.state == 12
    ensures Step(l, c) == l.(data := Nibble(c), state := 13)
  {
    hide Nibble, Shifted;
  }

  /** What the second nibble of a data byte does, by the count that is left. */
  lemma SecondNibble(l: Loader, d: Char)
    requires l.outcome == Running && l.state == 13 && 1 <= l.count <= 256
    ensures var data := Shifted(l.data, d); var sum := (l.sum + data % 256) % WORD; var r := Step(l, d);
      if l.count == 1 then
        && r.writes == l.writes && r.entry == (if l.kind == 7 then l.addr else l.entry)
        && (if sum % 256 == 255 then r.outcome == Running && r.state == 0 else r.outcome == BadChecksum)
      else
        r == l.(data := data, sum := sum, count := l.count - 1, addr := (l.addr + 1) % WORD,
                writes := l.writes + [Write(l.addr, data)], state := 12)
  {
    hide Shifted;
    assert (l.count - 1) % WORD == l.count - 1;
  }

  lemma AddByte(sum: int, b: nat)
    requires 0 <= sum && sum + 255 < WORD && b < 256
    ensures (sum + b % 256) % WORD == sum + b
  {
  }

  lemma LastByte(l: Loader, c: Char, d: Char)
    requires l.outcome == Running && l.state == 12 && l.count == 1 && 0 <= l.sum && l.sum + 255 < WORD
    ensures var r := Run(l, [c, d]);
      && r.writes == l.writes && r.entry == (if l.kind == 7 then l.addr else l.entry)
      && (if (l.sum + ByteOf(c, d)) % 256 == 255 then r.outcome == Running && r.state == 0
          else r.outcome == BadChecksum)
  {
    hide Run, Step, Nibble, Shifted, ByteOf;
    RunPair(l, c, d);
    FirstNibble(l, c);
    SecondNibble(Step(l, c), d);
    ShiftedByte(c, d);
    AddByte(l.sum, ByteOf(c, d));
  }

  lemma DataByte(l: Loader, c: Char, d: Char)
    requires l.outcome == Running && l.state == 12 && 2 <= l.count <= 256 && 0 <= l.sum && l.sum + 255 < WORD
    ensures var b := ByteOf(c, d);
      Run(l, [c, d]) == l.(data := b, sum := l.sum + b, count := l.count - 1, addr := (l.addr + 1) % WORD,
                           writes := l.writes + [Write(l.addr, b)])
  {
    hide Run, Step, Nibble, Shifted, ByteOf;
    RunPair(l, c, d);
    FirstNibble(l, c);
    SecondNibble(Step(l, c), d);
    ShiftedByte(c, d);
    AddByte(l.sum, ByteOf(c, d));
  }

  /** The data bytes and the closing checksum byte of a record. */
  lemma {:induction false} DataPhase(l: Loader, text: seq<Char>)
    requires l.outcome == Running && l.state == 12 && 0 <= l.addr < WORD && 0 <= l.sum
    requires |text| == 2 * l.count && 1 <= l.count <= 256 && l.sum + 255 * l.count < WORD
    ensures var bs := BytesOf(text); var n := l.count - 1; var r := Run(l, text);
      && r.writes == l.writes + Stored(l.addr, bs[..n])
      && r.entry == (if l.kind == 7 then (l.addr + n) % WORD else l.entry)
      && (if (l.sum + Sum(bs)) % 256 == 255 then r.outcome == Running && r.state == 0 else r.outcome == BadChecksum)
    decreases |text|
  {
    hide Run, Step, Stored, ByteOf, BytesOf, Sum;
    var c, d, rest := text[0], text[1], text[2..];
    BytesOfPair(text);
    RunConcat(l, [c, d], rest);
    var bs := BytesOf(text);
    if l.count == 1 {
      assert rest == [];
      RunNothing(Run(l, [c, d]));
      LastByte(l, c, d);
      assert Stored(l.addr, bs[..0]) == [];
      SumCons(bs);
      assert bs[1..] == [];
      SumNothing();
    } else {
      DataByte(l, c, d);
      var m := Run(l, [c, d]);
      DataPhase(m, rest);
      SumCons(bs);
      StoredCons(l.addr, bs[..l.count - 1]);
      assert bs[..l.count - 1][1..] == BytesOf(rest)[..l.count - 2];
      AddWraps(l.addr, l.count - 2);
    }
  }

  lemma SumNothing()
    ensures Sum([]) == 0
  {
  }

  lemma RunNothing(l: Loader)
    ensures Run(l, []) == l
  {
  }

  lemma AddWraps(addr: int, n: nat)
    requires 0 <= addr < WORD && n < WORD
    ensures ((addr + 1) % WORD + n) % WORD == (addr + (n + 1)) % WORD
  {
  }

  lemma StoredCons(addr: int, bs: seq<nat>)
    requires bs != [] && 0 <= addr < WORD
    ensures Stored(addr, bs) == [Write(addr, bs[0])] + Stored((addr + 1) % WORD, bs[1..])
  {
  }

  lemma CountByte(l: Loader, c: Char, d: Char)
    requires l.outcome == Running && l.state == 2 && l.sum == 0
    ensures var b := ByteOf(c, d); var r := Run(l, [c, d]);
      if b < 5 then r.outcome == BadCount && r.writes == l.writes
      else r == l.(count := b, sum := b, addr := 0, state := 4)
  {
    hide Run, Nibble, Shifted, ByteOf;
    RunPair(l, c, d);
    assert Step(l, c) == l.(count := Nibble(c), state := 3);
    ShiftedByte(c, d);
  }

  lemma ShiftedTwice(addr: int, c: Char, d: Char)
    requires 0 <= addr < 0x100_0000
    ensures Shifted(Shifted(addr, c), d) == addr * 256 + ByteOf(c, d)
    ensures Shifted(Shifted(addr, c), d) % 256 == ByteOf(c, d)
  {
    assert Shifted(addr, c) == addr * 16 + Nibble(c);
  }

  lemma AddressByte(l: Loader, c: Char, d: Char)
    requires l.outcome == Running && (l.state == 4 || l.state == 6 || l.state == 8 || l.state == 10)
    requires 0 <= l.addr < 0x100_0000 && 1 <= l.count <= 256 && 0 <= l.sum && l.sum + 255 < WORD
    ensures var b := ByteOf(c, d);
      Run(l, [c, d]) == l.(addr := l.addr * 256 + b, count := l.count - 1, sum := l.sum + b, state := l.state + 2)
  {
    hide Run, Nibble, Shifted, ByteOf;
    RunPair(l, c, d);
    assert Step(l, c) == l.(addr := Shifted(l.addr, c), state := l.state + 1);
    ShiftedTwice(l.addr, c, d);
  }

  function Address(bs: seq<nat>): nat
    requires |bs| == 4
  {
    ((bs[0] * 256 + bs[1]) * 256 + bs[2]) * 256 + bs[3]
  }

  lemma BytesOfPair(text: seq<Char>)
    requires |text| >= 2
    ensures BytesOf(text)[0] == ByteOf(text[0], text[1]) && BytesOf(text)[1..] == BytesOf(text[2..])
    ensures text == [text[0], text[1]] + text[2..]
  {
  }

  lemma FourBytes(text: seq<Char>)
    requires |text| == 8
    ensures BytesOf(text) == [ByteOf(text[0], text[1]), ByteOf(text[2], text[3]),
                              ByteOf(text[4], text[5]), ByteOf(text[6], text[7])]
    ensures var bs := BytesOf(text); Sum(bs) == bs[0] + bs[1] + bs[2] + bs[3]
  {
    hide ByteOf;
    var t1, t2, t3 := text[2..], text[4..], text[6..];
    assert t1[2..] == t2 && t2[2..] == t3 && t3[2..] == [];
    BytesOfPair(text);
    BytesOfPair(t1);
    BytesOfPair(t2);
    BytesOfPair(t3);
    var bs := BytesOf(text);
    assert bs[1..][1..] == bs[2..] && bs[2..][1..] == bs[3..] && bs[3..][1..] == [];
    SumCons(bs);
    SumCons(bs[1..]);
    SumCons(bs[2..]);
    SumCons(bs[3..]);
  }

  lemma AddressPhase(l: Loader, text: seq<Char>)
    requires l.outcome == Running && l.state == 4 && l.addr == 0 && 0 <= l.sum && l.sum + 4 * 255 < WORD
    requires |text| == 8 && 5 <= l.count <= 256
    ensures var bs := BytesOf(text);
      && Run(l, text) == l.(addr := Address(bs), count := l.count - 4, sum := l.sum + Sum(bs), state := 12)
      && Address(bs) < WORD && Sum(bs) <= 4 * 255
  {
    hide Run, ByteOf, BytesOf, Sum;
    FourBytes(text);
    var p1, p2, p3, p4 := text[..2], text[2..4], text[4..6], text[6..];
    assert text == p1 + (p2 + (p3 + p4));
    RunConcat(l, p1, p2 + (p3 + p4));
    AddressByte(l, p1[0], p1[1]);
    assert p1 == [p1[0], p1[1]] && p2 == [p2[0], p2[1]] && p3 == [p3[0], p3[1]] && p4 == [p4[0], p4[1]];
    var l1 := Run(l, p1);
    RunConcat(l1, p2, p3 + p4);
    AddressByte(l1, p2[0], p2[1]);
    var l2 := Run(l1, p2);
    RunConcat(l2, p3, p4);
    AddressByte(l2, p3[0], p3[1]);
    AddressByte(Run(l2, p3), p4[0], p4[1]);
  }

  /** Everything a record can do, whatever its characters: its data is stored where it says, and it
      is accepted exactly when its bytes, checksum included, add up to 255 modulo 256. */
  lemma RecordOutcome(l: Loader, text: seq<Char>)
    requires l.outcome == Running && l.state == 2 && l.sum == 0
    requires |text| >= 12 && |text| == 2 * (BytesOf(text)[0] + 1)
    ensures var bs := BytesOf(text); var r := Run(l, text);
      var addr, data := Address(bs[1..5]), bs[5..|bs| - 1];
      && r.writes == l.writes + Stored(addr, data)
      && r.entry == (if l.kind == 7 then (addr + |data|) % WORD else l.entry)
      && (if Sum(bs) % 256 == 255 then r.outcome == Running && r.state == 0 else r.outcome == BadChecksum)
  {
    hide Run, ByteOf, Stored, Address, Sum, BytesOf;
    var bs := BytesOf(text);
    var head, addr, rest := text[..2], text[2..10], text[10..];
    BytesOfPair(text);
    RunConcat(l, head, text[2..]);
    assert head == [text[0], text[1]];
    CountByte(l, text[0], text[1]);
    var l1 := Run(l, head);
    assert text[2..] == addr + rest;
    RunConcat(l1, addr, rest);
    AddressPhase(l1, addr);
    var l2 := Run(l1, addr);
    DataPhase(l2, rest);
    BytesOfConcat(addr, rest);
    SumConcat(BytesOf(addr), BytesOf(rest));
    SumCons(bs);
    assert bs[1..5] == BytesOf(addr);
    assert bs[5..|bs| - 1] == BytesOf(rest)[..|bs| - 6];
  }

  lemma SumCons(bs: seq<nat>)
    requires bs != []
    ensures Sum(bs) == bs[0] + Sum(bs[1..])
  {
  }

  lemma {:induction false} BytesOfConcat(a: seq<Char>, b: seq<Char>)
    requires |a| % 2 == 0
    ensures BytesOf(a + b) == BytesOf(a) + BytesOf(b)
    decreases |a|
  {
    hide ByteOf, BytesOf;
    if a == [] {
      assert a + b == b;
      assert BytesOf(a) == [];
    } else {
      var c := ByteOf(a[0], a[1]);
      assert (a + b)[2..] == a[2..] + b;
      BytesOfConcat(a[2..], b);
      BytesOfCons(a);
      BytesOfCons(a + b);
      assert [c] + (BytesOf(a[2..]) + BytesOf(b)) == ([c] + BytesOf(a[2..])) + BytesOf(b);
    }
  }

  lemma BytesOfCons(text: seq<Char>)
    requires |text| >= 2
    ensures BytesOf(text) == [ByteOf(text[0], text[1])] + BytesOf(text[2..])
  {
  }

  lemma {:induction false} SumConcat(a: seq<nat>, b: seq<nat>)
    ensures Sum(a + b) == Sum(a) + Sum(b)
    decreases |a|
  {
    if a == [] {
      assert a + b == b;
    } else {
      assert (a + b)[1..] == a[1..] + b;
      SumConcat(a[1..], b);
    }
  }

  /** An error is final. */
  lemma {:induction false} ErrorsAreFinal(l: Loader, text: seq<Char>)
    requires l.outcome != Running
    ensures Run(l, text) == l
    decreases |text|
  {
    if text != [] {
      ErrorsAreFinal(Step(l, text[0]), text[1..]);
    }
  }
}
