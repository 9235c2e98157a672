/** Completeness of a transfer, judged by counting. */
module FileCoverage {
  import opened Wrappers
  import opened Crc
  import opened FileTransfer

  function Range(from: int, to: int): (r: set<int>)
    decreases to - from
    ensures forall k :: k in r <==> from <= k < to
  {
    if from >= to then {} else Range(from, to - 1) + {to - 1}
  }

  lemma {:induction false} RangeSize(from: int, to: int)
    decreases to - from
    ensures |Range(from, to)| == if from <= to then to - from else 0
  {
    if from < to {
      RangeSize(from, to - 1);
      assert Range(from, to) == Range(from, to - 1) + {to - 1};
    } else {
      assert Range(from, to) == {};
    }
  }

  function PieceRange(p: Piece): set<int> {
    Range(p.at, p.at + |p.data|)
  }

  /** The positions some piece has written. */
  function Covered(pieces: seq<Piece>): set<int> {
    if pieces == [] then {} else Covered(pieces[..|pieces| - 1]) + PieceRange(pieces[|pieces| - 1])
  }

  ghost predicate Disjoint(pieces: seq<Piece>) {
    forall i, j :: 0 <= i < j < |pieces| ==> PieceRange(pieces[i]) !! PieceRange(pieces[j])
  }

  lemma {:induction false} CoveredMeans(pieces: seq<Piece>, k: int)
    ensures k in Covered(pieces) <==> exists i :: 0 <= i < |pieces| && k in PieceRange(pieces[i])
  {
    if pieces != [] {
      CoveredMeans(pieces[..|pieces| - 1], k);
    }
  }

  /** The counted length never falls short of what is covered, and matches it exactly when nothing overlaps. */
  lemma {:induction false} CoveredCount(pieces: seq<Piece>)
    ensures |Covered(pieces)| <= TotalLength(pieces)
    ensures |Covered(pieces)| == TotalLength(pieces) <==> Disjoint(pieces)
  {
    hide Range, Disjoint;
    if pieces == [] {
      NothingOverlaps();
    } else {
      var n := |pieces| - 1;
      var before, p := pieces[..n], pieces[n];
      CoveredCount(before);
      RangeSize(p.at, p.at + |p.data|);
      UnionSize(Covered(before), PieceRange(p));
      assert pieces == before + [p];
      DisjointAppend(before, p);
    }
  }

  lemma NothingOverlaps()
    ensures Disjoint([])
  {
  }

  lemma DisjointAppend(pieces: seq<Piece>, p: Piece)
    ensures Disjoint(pieces + [p]) <==> Disjoint(pieces) && Covered(pieces) !! PieceRange(p)
  {
    hide Covered, PieceRange;
    var n, all := |pieces|, pieces + [p];
    if Disjoint(all) {
      forall i, j | 0 <= i < j < n ensures PieceRange(pieces[i]) !! PieceRange(pieces[j]) {
        assert all[i] == pieces[i] && all[j] == pieces[j];
      }
      forall k | k in Covered(pieces) ensures k !in PieceRange(p) {
        CoveredMeans(pieces, k);
        var i :| 0 <= i < n && k in PieceRange(pieces[i]);
        assert PieceRange(all[i]) !! PieceRange(all[n]);
      }
    }
    if Disjoint(pieces) && Covered(pieces) !! PieceRange(p) {
      forall i, j | 0 <= i < j < n + 1 ensures PieceRange(all[i]) !! PieceRange(all[j]) {
        forall k | k in PieceRange(all[i]) ensures k !in PieceRange(all[j]) {
          assert all[i] == pieces[i];
          CoveredMeans(pieces, k);
          if j < n {
            assert PieceRange(pieces[i]) !! PieceRange(pieces[j]);
          }
        }
      }
    }
  }

  lemma UnionSize(a: set<int>, b: set<int>)
    ensures |a + b| <= |a| + |b|
    ensures |a + b| == |a| + |b| <==> a !! b
  {
    assert a + b == a + (b - a);
    assert b == (b - a) + (b * a);
    if a !! b {
      assert b - a == b;
    }
    if |b * a| == 0 {
      assert b * a == {};
    }
  }

  lemma {:induction false} CoveredFits(pieces: seq<Piece>, size: int)
    requires Fit(pieces, size)
    ensures Covered(pieces) <= Range(0, size)
  {
    forall k | k in Covered(pieces) ensures k in Range(0, size) {
      CoveredMeans(pieces, k);
    }
  }

  lemma SubsetOfEqualSize(a: set<int>, b: set<int>)
    requires a <= b && |a| == |b|
    ensures a == b
  {
    assert b == a + (b - a);
  }

  /** Bytes no piece covers keep what the memory held. */
  lemma {:induction false} UncoveredUntouched(memory: seq<byte>, pieces: seq<Piece>, k: int)
    requires Fit(pieces, |memory|) && 0 <= k < |memory| && k !in Covered(pieces)
    ensures Overlay(memory, pieces)[k] == memory[k]
  {
    if pieces != [] {
      UncoveredUntouched(memory, pieces[..|pieces| - 1], k);
    }
  }

  /** The answer of the status query: is a transfer under way and incomplete? */
  predicate InProgress(s: State) {
    !(s.size == 0 || s.size == s.bytesRx)
  }
}
