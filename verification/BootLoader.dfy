/** The loader's endless loop over received characters. */
module BootLoader {
  import opened SRecord

  lemma RunLast(l: Loader, text: seq<Char>, i: nat)
    requires i < |text|
    ensures Run(l, text[..i + 1]) == Step(Run(l, text[..i]), text[i])
  {
    hide Step;
    assert text[..i + 1] == text[..i] + [text[i]];
    RunConcat(l, text[..i], [text[i]]);
    var m := Run(l, text[..i]);
    assert [text[i]][1..] == [];
    assert Run(m, [text[i]]) == Run(Step(m, text[i]), []);
  }

  /** Serves the characters received so far; it stops early when it branches or gives up. */
  method Serve(input: seq<Char>) returns (l: Loader)
    ensures l == Run(START, input)
  {
    hide Run, Nibble, Shifted;
    var state, kind, count, sum, addr, data := 0, 0, 0, 0, 0, 0;
    var entry := 0x8000;
    var writes: seq<Write> := [];
    RunNothing(START);
    assert input[..0] == [];
    for i := 0 to |input|
      invariant Loader(state, kind, count, sum, entry, addr, data, writes, Running) == Run(START, input[..i])
      invariant 0 <= state <= 13
    {
      var ra := input[i];
      RunLast(START, input, i);
      ghost var rest := input[i + 1..];
      assert input == input[..i + 1] + rest;
      RunConcat(START, input[..i + 1], rest);
      match state
      case 0 =>
        if ra == CH_S {
          sum := 0;
          state := 1;
        }
        if ra == CH_LOWER_G || ra == CH_G {
          l := Loader(state, kind, count, sum, entry, addr, data, writes, Branched(entry));
          ErrorsAreFinal(l, rest);
          return;
        }
      case 1 =>
        if ra == CH_0 {
          state := 0;
        } else if ra == CH_3 {
          kind := 3;
          state := 2;
        } else if ra == CH_7 {
          kind := 7;
          state := 2;
        } else {
          l := Loader(state, kind, count, sum, entry, addr, data, writes, BadType);
          ErrorsAreFinal(l, rest);
          return;
        }
      case 2 =>
        count := Nibble(ra);
        state := 3;
      case 3 =>
        count := Shifted(count, ra);
        if count < 5 {
          l := Loader(state, kind, count, sum, entry, addr, data, writes, BadCount);
          ErrorsAreFinal(l, rest);
          return;
        }
        sum := (sum + count % 256) % WORD;
        addr := 0;
        state := 4;
      case 12 =>
        data := Nibble(ra);
        state := 13;
      case 13 =>
        data := Shifted(data, ra);
        sum := (sum + data % 256) % WORD;
        count := (count - 1) % WORD;
        if count == 0 {
          if kind == 7 {
            entry := addr;
          }
          sum := sum % 256;
          if sum != 0xFF {
            l := Loader(state, kind, count, sum, entry, addr, data, writes, BadChecksum);
            ErrorsAreFinal(l, rest);
            return;
          }
          state := 0;
        } else {
          writes := writes + [Write(addr, data)];
          addr := (addr + 1) % WORD;
          state := 12;
        }
      case _ =>
        addr := Shifted(addr, ra);
        if state % 2 == 1 {
          count := (count - 1) % WORD;
          sum := (sum + addr % 256) % WORD;
        }
        state := state + 1;
    }
    l := Loader(state, kind, count, sum, entry, addr, data, writes, Running);
    assert input[..|input|] == input;
  }
}
