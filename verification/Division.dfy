/** Long division of bit strings by x^16 + x^12 + x^5 + 1 over GF(2), and what the remainder detects. */
module Division {
  /** A remainder, most significant bit first. */
  type Reg = r: seq<bool> | |r| == 16 witness seq(16, i => false)

  predicate Tap(i: int) { i == 3 || i == 10 || i == 15 }

  /** Shift one message bit in: the bit that leaves, mixed with it, is added back at the taps. */
  function Step(r: Reg, bit: bool): Reg {
    seq(16, i requires 0 <= i < 16 => (i < 15 && r[i + 1]) != (r[0] != bit && Tap(i)))
  }

  function Feed(r: Reg, bits: seq<bool>): Reg
    decreases |bits|
  {
    if bits == [] then r else Feed(Step(r, bits[0]), bits[1..])
  }

  lemma {:induction false} FeedConcat(r: Reg, a: seq<bool>, b: seq<bool>)
    ensures Feed(r, a + b) == Feed(Feed(r, a), b)
    decreases |a|
  {
    if a == [] {
      assert a + b == b;
    } else {
      assert (a + b)[1..] == a[1..] + b;
      FeedConcat(Step(r, a[0]), a[1..], b);
    }
  }

  /** r and q agree in their k low bits */
  predicate Agree(r: Reg, q: Reg, k: nat)
    requires k <= 16
  {
    forall i :: 16 - k <= i < 16 ==> r[i] == q[i]
  }

  lemma Back(r: Reg, q: Reg, a: bool, b: bool, k: nat)
    requires 1 <= k <= 16 && Agree(Step(r, a), Step(q, b), k)
    ensures Agree(r, q, k - 1)
    ensures (r[0] != a) == (q[0] != b)
  {
    var r', q' := Step(r, a), Step(q, b);
    assert r'[15] == q'[15];
    forall i | 17 - k <= i < 16 ensures r[i] == q[i] {
      assert r'[i - 1] == q'[i - 1];
    }
  }

  lemma {:induction false} FeedBack(r: Reg, q: Reg, a: seq<bool>, b: seq<bool>)
    requires |a| == |b| <= 16 && Feed(r, a) == Feed(q, b)
    ensures Agree(r, q, 16 - |a|)
    ensures a != [] ==> (r[0] != a[0]) == (q[0] != b[0])
    decreases |a|
  {
    if a != [] {
      FeedBack(Step(r, a[0]), Step(q, b[0]), a[1..], b[1..]);
      Back(r, q, a[0], b[0], 17 - |a|);
    }
  }

  /** Two different strings of at most sixteen bits never leave the same remainder. */
  lemma {:induction false} ShortStringsDiffer(r: Reg, a: seq<bool>, b: seq<bool>)
    requires |a| == |b| <= 16 && Feed(r, a) == Feed(r, b)
    ensures a == b
    decreases |a|
  {
    if a != [] {
      FeedBack(r, r, a, b);
      ShortStringsDiffer(Step(r, a[0]), a[1..], b[1..]);
      assert a == [a[0]] + a[1..] && b == [b[0]] + b[1..];
    }
  }

  lemma {:induction false} FeedInjective(r: Reg, q: Reg, bits: seq<bool>)
    requires Feed(r, bits) == Feed(q, bits)
    ensures r == q
    decreases |bits|
  {
    if bits != [] {
      FeedInjective(Step(r, bits[0]), Step(q, bits[0]), bits[1..]);
      Back(r, q, bits[0], bits[0], 16);
      assert r == q;
    }
  }

  function Odd(bits: seq<bool>): bool {
    if bits == [] then false else bits[0] != Odd(bits[1..])
  }

  lemma {:induction false} StepParity(r: Reg, bit: bool, i: nat)
    requires i <= 15
    ensures Odd(Step(r, bit)[i..]) == (Odd(r[i + 1..]) != ((r[0] != bit) && (11 <= i || i <= 3)))
    decreases 15 - i
  {
    var s := Step(r, bit);
    assert s[i..][0] == s[i] && s[i..][1..] == s[i + 1..];
    if i < 15 {
      assert r[i + 1..][0] == r[i + 1] && r[i + 1..][1..] == r[i + 2..];
      StepParity(r, bit, i + 1);
    } else {
      assert s[16..] == [] && r[16..] == [];
    }
  }

  lemma {:induction false} FeedParity(r: Reg, bits: seq<bool>)
    ensures Odd(Feed(r, bits)) == (Odd(r) != Odd(bits))
    decreases |bits|
  {
    if bits != [] {
      StepParity(r, bits[0], 0);
      assert Step(r, bits[0])[0..] == Step(r, bits[0]);
      FeedParity(Step(r, bits[0]), bits[1..]);
    }
  }

  function Plus(a: seq<bool>, b: seq<bool>): (c: seq<bool>)
    requires |a| == |b|
    ensures |c| == |a|
  {
    seq(|a|, i requires 0 <= i < |a| => a[i] != b[i])
  }

  function Zeros(n: nat): (z: seq<bool>)
    ensures |z| == n
  {
    seq(n, i => false)
  }

  lemma {:induction false} FeedPlus(z: Reg, s: Reg, bits: seq<bool>)
    requires |bits| <= 16
    ensures Feed(Plus(z, s), bits) == Plus(Feed(z, Plus(bits, s[..|bits|])), s[|bits|..] + Zeros(|bits|))
    decreases |bits|
  {
    if bits == [] {
      assert s[0..] + Zeros(0) == s && Plus(bits, s[..0]) == [];
    } else {
      var n, s' := |bits|, s[1..] + [false];
      var e := Plus(bits, s[..n]);
      assert Step(Plus(z, s), bits[0]) == Plus(Step(z, e[0]), s');
      FeedPlus(Step(z, e[0]), s', bits[1..]);
      if n < 16 { assert s'[..n - 1] == s[1..n]; }
      assert e[1..] == Plus(bits[1..], s'[..n - 1]);
      assert s'[n - 1..] + Zeros(n - 1) == s[n..] + Zeros(n);
    }
  }
}
