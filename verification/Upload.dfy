/** Uploading an image in blocks over a channel that may drop, reorder or repeat them. */
module Upload {
  import opened Wrappers
  import opened Crc
  import opened FileTransfer
  import opened FileCoverage

  /** An image cut into consecutive blocks, of any lengths: block i runs from cut i to the next. */
  datatype Slices = Slices(image: seq<byte>, cuts: seq<nat>)

  predicate WellCut(f: Slices) {
    && |f.cuts| > 0 && f.cuts[0] == 0 && f.cuts[|f.cuts| - 1] == |f.image|
    && forall i, j :: 0 <= i <= j < |f.cuts| ==> f.cuts[i] <= f.cuts[j]
  }

  type Sliced = f: Slices | WellCut(f) witness Slices([], [0])

  function NumBlocks(f: Sliced): nat {
    |f.cuts| - 1
  }

  function BlockAt(f: Sliced, i: nat): (p: Piece)
    requires i < NumBlocks(f)
    ensures 0 <= p.at <= |f.image| && p.at + |p.data| <= |f.image|
  {
    Piece(f.cuts[i], f.image[f.cuts[i]..f.cuts[i + 1]])
  }

  /** The last of the first n blocks that starts at or before a position. */
  function LastBlock(f: Sliced, j: nat, n: nat): (i: nat)
    requires 0 < n <= NumBlocks(f) && j < |f.image|
    ensures i < n && f.cuts[i] <= j
    ensures forall k :: i < k < n ==> f.cuts[k] > j
  {
    if f.cuts[n - 1] <= j || n == 1 then n - 1 else LastBlock(f, j, n - 1)
  }

  /** The block that holds a position. */
  function BlockOf(f: Sliced, j: nat): (i: nat)
    requires j < |f.image|
    ensures i < NumBlocks(f) && f.cuts[i] <= j < f.cuts[i + 1]
  {
    LastBlock(f, j, NumBlocks(f))
  }

  predicate Indices(r: seq<nat>, f: Sliced) {
    forall k :: 0 <= k < |r| ==> r[k] < NumBlocks(f)
  }

  function BlocksOf(f: Sliced, r: seq<nat>): (pieces: seq<Piece>)
    requires Indices(r, f)
    ensures |pieces| == |r| && forall k :: 0 <= k < |r| ==> pieces[k] == BlockAt(f, r[k])
  {
    seq(|r|, k requires 0 <= k < |r| => BlockAt(f, r[k]))
  }

  /** Position j holds the image where its block has arrived and the old memory elsewhere. */
  function Painted(f: Sliced, memory: seq<byte>, r: seq<nat>): (p: seq<byte>)
    requires |memory| == |f.image|
    ensures |p| == |f.image|
  {
    seq(|f.image|, j requires 0 <= j < |f.image| => if BlockOf(f, j) in r then f.image[j] else memory[j])
  }

  lemma InBlock(f: Sliced, i: nat, j: nat)
    requires i < NumBlocks(f) && j < |f.image|
    ensures var p := BlockAt(f, i);
      && (j in PieceRange(p) <==> BlockOf(f, j) == i)
      && (j in PieceRange(p) ==> p.data[j - p.at] == f.image[j])
  {
    hide LastBlock;
    var k := BlockOf(f, j);
    assert k < i ==> f.cuts[k + 1] <= f.cuts[i];
    assert i < k ==> f.cuts[i + 1] <= f.cuts[k];
  }

  lemma PutAt(buffer: seq<byte>, at: int, data: seq<byte>, j: nat)
    requires 0 <= at && at + |data| <= |buffer| && j < |buffer|
    ensures Put(buffer, at, data)[j] == if at <= j < at + |data| then data[j - at] else buffer[j]
  {
  }

  lemma PaintOne(f: Sliced, memory: seq<byte>, r: seq<nat>, i: nat)
    requires |memory| == |f.image| && i < NumBlocks(f)
    ensures var p := BlockAt(f, i);
      Put(Painted(f, memory, r), p.at, p.data) == Painted(f, memory, r + [i])
  {
    hide Put, BlockAt;
    var p := BlockAt(f, i);
    var painted := Painted(f, memory, r);
    forall j: nat | j < |f.image| ensures Put(painted, p.at, p.data)[j] == Painted(f, memory, r + [i])[j] {
      PutAt(painted, p.at, p.data, j);
      InBlock(f, i, j);
    }
  }

  lemma {:induction false} OverlayPaints(f: Sliced, memory: seq<byte>, r: seq<nat>)
    requires |memory| == |f.image| && Indices(r, f)
    ensures Fit(BlocksOf(f, r), |f.image|)
    ensures Overlay(memory, BlocksOf(f, r)) == Painted(f, memory, r)
  {
    hide BlockAt, Put, Painted, Overlay, Fit;
    if r == [] {
      assert BlocksOf(f, r) == [];
      NothingOverlaid(memory);
      NothingPainted(f, memory);
    } else {
      var n := |r| - 1;
      var before, p := r[..n], BlockAt(f, r[n]);
      assert r == before + [r[n]];
      OverlayPaints(f, memory, before);
      assert BlocksOf(f, r) == BlocksOf(f, before) + [p];
      OverlayAppend(memory, BlocksOf(f, before), p);
      PaintOne(f, memory, before, r[n]);
    }
  }

  lemma NothingPainted(f: Sliced, memory: seq<byte>)
    requires |memory| == |f.image|
    ensures Painted(f, memory, []) == memory
  {
  }

  // ---- Which blocks arrived ----

  ghost predicate NoRepeats(r: seq<nat>) {
    forall i, j :: 0 <= i < j < |r| ==> r[i] != r[j]
  }

  ghost predicate AllArrived(r: seq<nat>, n: nat) {
    forall i: nat :: i < n ==> i in r
  }

  function Elements(r: seq<nat>): (e: set<int>)
    ensures forall k :: k in e <==> k >= 0 && k in r
  {
    if r == [] then {} else Elements(r[..|r| - 1]) + {r[|r| - 1]}
  }

  lemma NoRepeatsAppend(r: seq<nat>, x: nat)
    ensures NoRepeats(r + [x]) <==> NoRepeats(r) && x !in r
  {
    var s := r + [x];
    if NoRepeats(s) {
      forall i, j | 0 <= i < j < |r| ensures r[i] != r[j] {
        assert s[i] != s[j];
      }
      forall i | 0 <= i < |r| ensures r[i] != x {
        assert s[i] != s[|r|];
      }
    }
  }

  lemma ElementsAppend(r: seq<nat>, x: nat)
    ensures Elements(r + [x]) == Elements(r) + {x}
  {
    assert (r + [x])[..|r + [x]| - 1] == r;
  }

  lemma {:induction false} ElementsCount(r: seq<nat>)
    ensures |Elements(r)| <= |r|
    ensures |Elements(r)| == |r| <==> NoRepeats(r)
  {
    if r != [] {
      hide NoRepeats;
      var before, x := r[..|r| - 1], r[|r| - 1];
      assert r == before + [x];
      ElementsCount(before);
      ElementsAppend(before, x);
      NoRepeatsAppend(before, x);
      if x in before {
        assert Elements(r) == Elements(before);
      }
    }
  }

  /** Pigeonholes: as many arrivals as blocks; all of them have arrived exactly when none came twice. */
  lemma AllArrivedIffNoRepeats(r: seq<nat>, n: nat)
    requires |r| == n && forall k :: 0 <= k < |r| ==> r[k] < n
    ensures AllArrived(r, n) <==> NoRepeats(r)
  {
    hide Elements, NoRepeats;
    ElementsCount(r);
    RangeSize(0, n);
    assert Elements(r) <= Range(0, n);
    if NoRepeats(r) {
      SubsetOfEqualSize(Elements(r), Range(0, n));
      forall i: nat | i < n ensures i in r {
        assert i in Range(0, n);
      }
    }
    if AllArrived(r, n) {
      assert Range(0, n) <= Elements(r);
      assert Range(0, n) == Elements(r);
    }
  }

  /** Without repeats, arrivals are as many as blocks exactly when every block arrived. */
  lemma CountIffAllArrived(r: seq<nat>, n: nat)
    requires NoRepeats(r) && forall k :: 0 <= k < |r| ==> r[k] < n
    ensures |r| == n <==> AllArrived(r, n)
  {
    hide Elements, NoRepeats;
    ElementsCount(r);
    RangeSize(0, n);
    assert Elements(r) <= Range(0, n);
    if |r| == n {
      AllArrivedIffNoRepeats(r, n);
    }
    if AllArrived(r, n) {
      assert Range(0, n) <= Elements(r);
      assert Range(0, n) == Elements(r);
    }
  }

  lemma WhollyPainted(f: Sliced, memory: seq<byte>, r: seq<nat>)
    requires |memory| == |f.image| && AllArrived(r, NumBlocks(f))
    ensures Painted(f, memory, r) == f.image
  {
    hide BlockOf;
    forall j: nat | j < |f.image| ensures BlockOf(f, j) in r {
    }
  }

  /** Distinct blocks that have all arrived add up to the image. */
  lemma TotalIsImage(f: Sliced, r: seq<nat>)
    requires Indices(r, f) && NoRepeats(r) && AllArrived(r, NumBlocks(f))
    ensures TotalLength(BlocksOf(f, r)) == |f.image|
  {
    hide BlockAt, Covered, PieceRange, Range, TotalLength, NumBlocks;
    var pieces := BlocksOf(f, r);
    CoveredCount(pieces);
    forall i, j | 0 <= i < j < |pieces| ensures PieceRange(pieces[i]) !! PieceRange(pieces[j]) {
      RangesApart(f, r[i], r[j]);
    }
    RangeSize(0, |f.image|);
    forall k ensures k in Covered(pieces) <==> k in Range(0, |f.image|) {
      CoveredMeans(pieces, k);
      InRange(0, |f.image|, k);
      if 0 <= k < |f.image| {
        var block := BlockOf(f, k);
        assert block in r;
        var i :| 0 <= i < |r| && r[i] == block;
        InBlock(f, r[i], k);
        assert k in PieceRange(pieces[i]);
      } else {
        forall i | 0 <= i < |pieces| ensures k !in PieceRange(pieces[i]) {
          InsideImage(f, r[i], k);
        }
      }
    }
    assert Covered(pieces) == Range(0, |f.image|);
  }

  lemma InRange(from: int, to: int, k: int)
    ensures k in Range(from, to) <==> from <= k < to
  {
  }

  lemma InsideImage(f: Sliced, i: nat, k: int)
    requires i < NumBlocks(f)
    ensures k in PieceRange(BlockAt(f, i)) ==> 0 <= k < |f.image|
  {
  }

  lemma RangesApart(f: Sliced, i: nat, j: nat)
    requires i < NumBlocks(f) && j < NumBlocks(f) && i != j
    ensures PieceRange(BlockAt(f, i)) !! PieceRange(BlockAt(f, j))
  {
    forall k | k in PieceRange(BlockAt(f, i)) ensures k !in PieceRange(BlockAt(f, j)) {
      InsideImage(f, i, k);
      InBlock(f, i, k);
      InBlock(f, j, k);
    }
  }

  // ---- The exchange ----

  lemma {:induction false} RunConcat(s: State, a: seq<Command>, b: seq<Command>)
    requires Sound(s) && AllAllocate(a) && AllAllocate(b)
    ensures AllAllocate(a + b) && Run(s, a + b) == Run(Run(s, a), b)
  {
    hide Step, Sound, Allocates;
    if b == [] {
      assert a + b == a;
    } else {
      var n := |b| - 1;
      RunConcat(s, a, b[..n]);
      assert (a + b)[..|a + b| - 1] == a + b[..n];
    }
  }

  lemma RunOne(s: State, c: Command)
    requires Sound(s) && Allocates(c)
    ensures AllAllocate([c]) && Run(s, [c]) == Step(s, c)
  {
    hide Step, Sound, Allocates;
    assert [c][..0] == [];
  }

  function BlockCommand(f: Sliced, i: nat): Command
    requires i < NumBlocks(f)
  {
    Block(Some(BlockAt(f, i).at), BlockAt(f, i).data)
  }

  function BlockCommands(f: Sliced, r: seq<nat>): (cs: seq<Command>)
    requires Indices(r, f)
    ensures |cs| == |r| && forall k :: 0 <= k < |r| ==> cs[k] == BlockCommand(f, r[k])
    ensures AllAllocate(cs)
  {
    seq(|r|, k requires 0 <= k < |r| => BlockCommand(f, r[k]))
  }

  /** Every block that arrives is taken, whatever the order and however often. */
  lemma {:induction false} BlocksTaken(s: State, f: Sliced, memory: seq<byte>, r: seq<nat>)
    requires |memory| == |f.image| && Indices(r, f)
    requires Sound(s) && s.buffer == Some(memory) && s.size == |f.image| && s.bytesRx == 0 && s.blockCount == 0
    ensures Run(s, BlockCommands(f, r)) ==
      s.(buffer := Some(Painted(f, memory, r)), bytesRx := TotalLength(BlocksOf(f, r)), blockCount := |r|)
  {
    hide Put, Painted, TotalLength, BlockAt;
    if r == [] {
      NothingPainted(f, memory);
      NoPieces();
      assert BlocksOf(f, r) == [];
    } else {
      var n := |r| - 1;
      var before, p := r[..n], BlockAt(f, r[n]);
      assert r == before + [r[n]];
      BlocksTaken(s, f, memory, before);
      assert BlockCommands(f, r)[..n] == BlockCommands(f, before);
      assert BlocksOf(f, r) == BlocksOf(f, before) + [p];
      TotalAppend(BlocksOf(f, before), p);
      PaintOne(f, memory, before, r[n]);
      assert Accepts(Run(s, BlockCommands(f, before)), BlockCommand(f, r[n]));
    }
  }

  /** A start, the blocks that arrive, and the end. */
  function Exchange(start: Command, f: Sliced, r: seq<nat>): (cs: seq<Command>)
    requires Indices(r, f) && Allocates(start)
    ensures AllAllocate(cs)
  {
    [start] + BlockCommands(f, r) + [End(Some(NumBlocks(f)))]
  }

  predicate StartsImage(start: Command, f: Sliced, memory: Option<seq<byte>>) {
    && Starts(start) && Allocates(start)
    && start.fileLen.value == |f.image| && start.memory == memory
  }

  /** Whatever arrives, in whatever order and however often: the answer is an acknowledgement exactly
      when as many blocks arrived as were sent, and only then is the file handed over. */
  lemma {:induction false} AnswerCountsBlocks(s: State, start: Command, f: Sliced, memory: seq<byte>,
                                              r: seq<nat>)
    requires Sound(s) && f.image != [] && Indices(r, f) && StartsImage(start, f, Some(memory))
    ensures var t := Run(s, Exchange(start, f, r)); var n := NumBlocks(f);
      && t.buffer == None
      && t.out == s.out +
        if |r| == n then
          [Ack(n, n), HandOver(start.info, Painted(f, memory, r), TotalLength(BlocksOf(f, r)),
                               IsFirmware(start.fileType.value))]
        else [NotAck(|r|, n)]
  {
    hide Put, Painted, TotalLength, BlockAt, IsFirmware, NumBlocks;
    var s1 := Step(s, start);
    RunOne(s, start);
    BlocksTaken(s1, f, memory, r);
    RunConcat(s, [start], BlockCommands(f, r));
    var end := End(Some(NumBlocks(f)));
    RunConcat(s, [start] + BlockCommands(f, r), [end]);
    RunOne(Run(s1, BlockCommands(f, r)), end);
  }

  /** With blocks lost or reordered but none repeated: acknowledged, and the very image handed over,
      exactly when no block was lost; otherwise refused and nothing handed over. */
  lemma AcknowledgedIffComplete(s: State, start: Command, f: Sliced, memory: seq<byte>, r: seq<nat>)
    requires Sound(s) && f.image != [] && Indices(r, f) && NoRepeats(r) && StartsImage(start, f, Some(memory))
    ensures var t := Run(s, Exchange(start, f, r)); var n := NumBlocks(f);
      t.out == s.out +
        if AllArrived(r, n) then [Ack(n, n), HandOver(start.info, f.image, |f.image|, IsFirmware(start.fileType.value))]
        else [NotAck(|r|, n)]
  {
    hide Run, Painted, TotalLength, BlockAt, IsFirmware, NumBlocks, NoRepeats, AllArrived;
    AnswerCountsBlocks(s, start, f, memory, r);
    CountIffAllArrived(r, NumBlocks(f));
    if AllArrived(r, NumBlocks(f)) {
      WhollyPainted(f, memory, r);
      TotalIsImage(f, r);
    }
  }

  /** With repeats the count can be right although a block is missing: an acknowledged transfer is
      complete exactly when no block arrived twice, and what is missing is old memory. The length handed
      over is what the arrivals add up to. */
  lemma {:induction false} AcknowledgedButIncomplete(s: State, start: Command, f: Sliced, memory: seq<byte>,
                                                     r: seq<nat>)
    requires Sound(s) && f.image != [] && Indices(r, f) && StartsImage(start, f, Some(memory))
    requires |r| == NumBlocks(f)
    ensures var t := Run(s, Exchange(start, f, r));
      && |t.out| == |s.out| + 2 && t.out[|s.out|].Ack? && t.out[|s.out| + 1].HandOver?
      && var HandOver(info, file, length, firmware) := t.out[|s.out| + 1];
      && |file| == |f.image|
      && (forall j :: 0 <= j < |f.image| ==> file[j] == if BlockOf(f, j) in r then f.image[j] else memory[j])
      && length == TotalLength(BlocksOf(f, r))
    ensures AllArrived(r, NumBlocks(f)) <==> NoRepeats(r)
  {
    hide Run, TotalLength, BlockAt, IsFirmware, NumBlocks, NoRepeats, AllArrived, BlockOf;
    AnswerCountsBlocks(s, start, f, memory, r);
    AllArrivedIffNoRepeats(r, NumBlocks(f));
  }

  // ---- Blocks of one length ----

  function BlockCount(length: nat, size: nat): nat
    requires size > 0
  {
    length / size + if length % size == 0 then 0 else 1
  }

  function CutAt(length: nat, size: nat, i: nat): nat {
    if i * size <= length then i * size else length
  }

  lemma CountCovers(length: nat, size: nat)
    requires size > 0
    ensures length <= BlockCount(length, size) * size
    ensures BlockCount(length, size) > 0 ==> (BlockCount(length, size) - 1) * size < length
  {
    var q, m := length / size, length % size;
    assert length == q * size + m;
    OneMore(q, size);
    if m == 0 && q > 0 {
      OneMore(q - 1, size);
    }
  }

  lemma CutsRise(length: nat, size: nat, i: nat, j: nat)
    requires i <= j
    ensures CutAt(length, size, i) <= CutAt(length, size, j) <= length
  {
    assert j * size == i * size + (j - i) * size;
    Product(j - i, size);
  }

  lemma CutEnds(length: nat, size: nat)
    requires size > 0
    ensures CutAt(length, size, 0) == 0 && CutAt(length, size, BlockCount(length, size)) == length
  {
    CountCovers(length, size);
    assert 0 * size == 0;
  }

  /** An image cut into blocks of one length, the last perhaps shorter. */
  function Uniform(image: seq<byte>, size: nat): (f: Sliced)
    requires size > 0
    ensures f.image == image && NumBlocks(f) == BlockCount(|image|, size)
    ensures forall i :: 0 <= i < |f.cuts| ==> f.cuts[i] == CutAt(|image|, size, i)
  {
    var n := BlockCount(|image|, size);
    var f := Slices(image, seq(n + 1, i requires 0 <= i <= n => CutAt(|image|, size, i)));
    UniformIsCut(image, size, f);
    f
  }

  lemma UniformIsCut(image: seq<byte>, size: nat, f: Slices)
    requires size > 0 && f.image == image && |f.cuts| == BlockCount(|image|, size) + 1
    requires forall i :: 0 <= i < |f.cuts| ==> f.cuts[i] == CutAt(|image|, size, i)
    ensures WellCut(f)
  {
    hide CutAt, BlockCount;
    CutEnds(|image|, size);
    forall i, j | 0 <= i <= j < |f.cuts| ensures f.cuts[i] <= f.cuts[j] {
      CutsRise(|image|, size, i, j);
    }
  }

  /** What the last block falls short of a full one. */
  function Shortfall(length: nat, size: nat): int
    requires size > 0
  {
    BlockCount(length, size) * size - length
  }

  /** Block i of that length starts at i times it, and is full unless it is the last. */
  lemma UniformBlock(image: seq<byte>, size: nat, i: nat)
    requires size > 0 && i < BlockCount(|image|, size)
    ensures var p, n := BlockAt(Uniform(image, size), i), BlockCount(|image|, size);
      p.at == i * size && |p.data| == size - if i == n - 1 then Shortfall(|image|, size) else 0
    ensures 0 <= Shortfall(|image|, size) < size
  {
    hide BlockCount;
    var n := BlockCount(|image|, size);
    CountCovers(|image|, size);
    OneMore(n - 1, size);
    OneMore(i, size);
    Multiples(i, n - 1, size);
    if i < n - 1 {
      Multiples(i + 1, n - 1, size);
    }
  }

  lemma Multiples(i: nat, j: nat, size: nat)
    requires i <= j
    ensures i * size <= j * size
  {
    assert j * size == i * size + (j - i) * size;
    Product(j - i, size);
  }

  /** How often a block has arrived. */
  function Times(r: seq<nat>, i: nat): nat {
    if r == [] then 0 else Times(r[..|r| - 1], i) + if r[|r| - 1] == i then 1 else 0
  }

  lemma {:induction false} TimesIn(r: seq<nat>, i: nat)
    ensures Times(r, i) > 0 <==> i in r
  {
    if r != [] {
      TimesIn(r[..|r| - 1], i);
      assert r == r[..|r| - 1] + [r[|r| - 1]];
    }
  }

  /** The lengths of the blocks that arrived, counted with repeats. */
  lemma {:induction false} TotalCounts(image: seq<byte>, size: nat, r: seq<nat>)
    requires image != [] && size > 0 && Indices(r, Uniform(image, size))
    ensures TotalLength(BlocksOf(Uniform(image, size), r))
         == |r| * size - Times(r, BlockCount(|image|, size) - 1) * Shortfall(|image|, size)
  {
    hide TotalLength, BlockAt, NumBlocks, Shortfall, Times, Indices, Uniform, BlockCount;
    SomeBlock(|image|, size);
    var f, last, short := Uniform(image, size), BlockCount(|image|, size) - 1, Shortfall(|image|, size);
    if r == [] {
      NoPieces();
      NoTimes(last);
      assert BlocksOf(f, r) == [];
    } else {
      var before, i := r[..|r| - 1], r[|r| - 1];
      assert r == before + [i];
      IndicesAppend(before, i, f);
      TotalCounts(image, size, before);
      assert BlocksOf(f, r) == BlocksOf(f, before) + [BlockAt(f, i)];
      TotalAppend(BlocksOf(f, before), BlockAt(f, i));
      UniformBlock(image, size, i);
      TimesAppend(before, i, last);
      OneMore(|before|, size);
      OneMore(Times(before, last), short);
    }
  }

  lemma OneMore(n: nat, size: nat)
    ensures (n + 1) * size == n * size + size
  {
  }

  lemma NoTimes(i: nat)
    ensures Times([], i) == 0
  {
  }

  lemma TimesAppend(r: seq<nat>, x: nat, i: nat)
    ensures Times(r + [x], i) == Times(r, i) + if x == i then 1 else 0
  {
    assert (r + [x])[..|r + [x]| - 1] == r;
  }

  lemma IndicesAppend(r: seq<nat>, x: nat, f: Sliced)
    ensures Indices(r + [x], f) <==> Indices(r, f) && x < NumBlocks(f)
  {
    hide NumBlocks;
    assert (r + [x])[|r|] == x;
    assert forall k :: 0 <= k < |r| ==> (r + [x])[k] == r[k];
  }

  lemma SomeBlock(length: nat, size: nat)
    requires length > 0 && size > 0
    ensures BlockCount(length, size) > 0 && 0 <= Shortfall(length, size) < size
    ensures BlockCount(length, size) * size == length + Shortfall(length, size)
  {
    hide BlockCount;
    CountCovers(length, size);
    var n := BlockCount(length, size);
    if n > 0 {
      OneMore(n - 1, size);
    }
  }

  /** As many arrivals as blocks of one length: the length handed over exceeds the image exactly when the last
      block is short and did not arrive, and falls short of it exactly when it is short and came twice or more. */
  lemma CountedLength(image: seq<byte>, size: nat, r: seq<nat>)
    requires image != [] && size > 0 && Indices(r, Uniform(image, size)) && |r| == BlockCount(|image|, size)
    ensures BlockCount(|image|, size) > 0
    ensures var length, last := TotalLength(BlocksOf(Uniform(image, size), r)), BlockCount(|image|, size) - 1;
      && (length > |image| <==> |image| % size != 0 && last !in r)
      && (length < |image| <==> |image| % size != 0 && Times(r, last) >= 2)
  {
    hide *;
    SomeBlock(|image|, size);
    var last := BlockCount(|image|, size) - 1;
    TotalCounts(image, size, r);
    TimesIn(r, last);
    ShortLast(|image|, size);
    Balance(Times(r, last), Shortfall(|image|, size));
  }

  lemma ShortLast(length: nat, size: nat)
    requires length > 0 && size > 0
    ensures Shortfall(length, size) > 0 <==> length % size != 0
  {
    var q, m := length / size, length % size;
    assert length == q * size + m;
    OneMore(q, size);
  }

  lemma Product(a: nat, b: nat)
    ensures a * b >= 0
  {
  }

  lemma Balance(times: nat, short: nat)
    ensures short - times * short > 0 <==> short > 0 && times == 0
    ensures short - times * short < 0 <==> short > 0 && times >= 2
  {
    if times >= 2 && short > 0 {
      Product(times - 2, short);
      assert times * short == 2 * short + (times - 2) * short;
    }
  }

  /** The first of two blocks twice and the second never: acknowledged, with the second not the image's. */
  lemma RepeatHidesLoss(s: State, start: Command, f: Sliced, memory: seq<byte>)
    requires Sound(s) && NumBlocks(f) == 2 && f.cuts[1] < |f.image| && StartsImage(start, f, Some(memory))
    requires f.image[f.cuts[1]] != memory[f.cuts[1]]
    ensures var r: seq<nat> := [0, 0]; var t := Run(s, Exchange(start, f, r));
      && |t.out| == |s.out| + 2 && t.out[|s.out|] == Ack(2, 2)
      && t.out[|s.out| + 1].HandOver? && t.out[|s.out| + 1].file != f.image
  {
    hide Run, TotalLength, BlockAt, IsFirmware, Exchange, LastBlock;
    AnswerCountsBlocks(s, start, f, memory, [0, 0]);
    assert BlockOf(f, f.cuts[1]) == 1;
    assert Painted(f, memory, [0, 0])[f.cuts[1]] == memory[f.cuts[1]];
  }

  /** When the memory for the file cannot be had, nothing is answered at all. */
  lemma {:induction false} NoMemoryNoAnswer(s: State, start: Command, f: Sliced, r: seq<nat>)
    requires Sound(s) && f.image != [] && Indices(r, f) && StartsImage(start, f, None)
    ensures Run(s, Exchange(start, f, r)).out == s.out
  {
    hide BlockAt, NumBlocks;
    var s1 := Step(s, start);
    RunOne(s, start);
    BlocksIgnored(s1, f, r);
    RunConcat(s, [start], BlockCommands(f, r));
    var end := End(Some(NumBlocks(f)));
    RunConcat(s, [start] + BlockCommands(f, r), [end]);
    RunOne(Run(s1, BlockCommands(f, r)), end);
  }

  lemma {:induction false} BlocksIgnored(s: State, f: Sliced, r: seq<nat>)
    requires Sound(s) && s.buffer == None && Indices(r, f)
    ensures Run(s, BlockCommands(f, r)) == s
  {
    hide BlockAt;
    if r != [] {
      var n := |r| - 1;
      BlocksIgnored(s, f, r[..n]);
      assert BlockCommands(f, r)[..n] == BlockCommands(f, r[..n]);
    }
  }
}
