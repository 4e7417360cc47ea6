/** The in-place bit-reversal permutation of solomon-zk/src/ntt.rs. */
module BitReversal {
  import opened Goldilocks
  import opened Fourier

  /** The index i < n with its log2(n) bits in the opposite order. */
  ghost function Rev(i: nat, n: nat): (r: nat)
    requires PowerOfTwo(n) && i < n
    ensures r < n
    decreases n
  {
    if n == 1 then 0 else if i % 2 == 0 then Rev(i / 2, n / 2) else n / 2 + Rev(i / 2, n / 2)
  }

  /** Reading the same reversal from the top bit. */
  lemma {:induction false} RevFromTop(i: nat, n: nat)
    requires PowerOfTwo(n) && n > 1 && i < n
    ensures i < n / 2 ==> Rev(i, n) == 2 * Rev(i, n / 2)
    ensures i >= n / 2 ==> Rev(i, n) == 2 * Rev(i - n / 2, n / 2) + 1
    decreases n
  {
    var h := n / 2;
    if h > 1 {
      RevFromTop(i / 2, h);
      hide Rev, PowerOfTwo;
      RevUnfold(i, n);
      if i < h {
        RevUnfold(i, h);
      } else {
        UpperHalf(i, h);
        RevUnfold(i - h, h);
      }
    }
  }

  lemma RevUnfold(i: nat, n: nat)
    requires PowerOfTwo(n) && n > 1 && i < n
    ensures n % 2 == 0 && PowerOfTwo(n / 2) && i / 2 < n / 2
    ensures Rev(i, n) == (if i % 2 == 0 then 0 else n / 2) + Rev(i / 2, n / 2)
  {}

  lemma UpperHalf(i: nat, h: nat)
    requires h % 2 == 0 && i >= h
    ensures (i - h) % 2 == i % 2 && (i - h) / 2 == i / 2 - h / 2
  {}

  lemma {:induction false} RevInvolution(i: nat, n: nat)
    requires PowerOfTwo(n) && i < n
    ensures Rev(Rev(i, n), n) == i
    decreases n
  {
    if n > 1 {
      var r := Rev(i / 2, n / 2);
      RevInvolution(i / 2, n / 2);
      RevFromTop(Rev(i, n), n);
    }
  }

  ghost function BitReversed(x: seq<Felt>): (r: seq<Felt>)
    requires PowerOfTwo(|x|)
    ensures |r| == |x|
  {
    seq(|x|, i requires 0 <= i < |x| => x[Rev(i, |x|)])
  }

  /** Bit reversal lays out the bit-reversed even half before the bit-reversed odd half. */
  lemma BitReversedHalves(x: seq<Felt>)
    requires PowerOfTwo(|x|) && |x| > 1
    ensures BitReversed(x) == BitReversed(FEvens(x)) + BitReversed(FOdds(x))
  {
    hide BitReversed, Rev, PowerOfTwo;
    RevUnfold(0, |x|);
    HalfEntries(x);
    ReversedByHalves(x, FEvens(x), FOdds(x), |x| / 2);
  }

  lemma HalfEntries(x: seq<Felt>)
    requires |x| % 2 == 0
    ensures forall k | 0 <= k < |x| / 2 :: FEvens(x)[k] == x[2 * k] && FOdds(x)[k] == x[2 * k + 1]
  {}

  lemma ReversedByHalves(x: seq<Felt>, e: seq<Felt>, o: seq<Felt>, h: nat)
    requires |x| == 2 * h && |e| == h && |o| == h && PowerOfTwo(2 * h) && PowerOfTwo(h)
    requires forall k | 0 <= k < h :: e[k] == x[2 * k] && o[k] == x[2 * k + 1]
    ensures BitReversed(x) == BitReversed(e) + BitReversed(o)
  {
    hide BitReversed, Rev, PowerOfTwo;
    var r := BitReversed(e) + BitReversed(o);
    forall i | 0 <= i < 2 * h ensures BitReversed(x)[i] == r[i] { BitReversedAt(x, e, o, h, i); }
  }

  lemma BitReversedAt(x: seq<Felt>, e: seq<Felt>, o: seq<Felt>, h: nat, i: nat)
    requires |x| == 2 * h && |e| == h && |o| == h && PowerOfTwo(2 * h) && PowerOfTwo(h) && i < 2 * h
    requires forall k | 0 <= k < h :: e[k] == x[2 * k] && o[k] == x[2 * k + 1]
    ensures BitReversed(x)[i] == if i < h then BitReversed(e)[i] else BitReversed(o)[i - h]
  {
    hide Rev, BitReversed, PowerOfTwo;
    RevFromTop(i, 2 * h);
    BitReversedIs(x, i);
    if i < h { BitReversedIs(e, i); } else { BitReversedIs(o, i - h); }
  }

  // ----- the reversed counter

  /** The single-bit test and toggle on a counter below 2 * bit, for bit a power of two or 0. */
  predicate BitSet(j: nat, bit: nat) { bit > 0 && (j / bit) % 2 == 1 }

  function FlipBit(j: nat, bit: nat): nat
  {
    if BitSet(j, bit) && j >= bit then j - bit else j + bit
  }

  lemma BitSetBelow(j: nat, bit: nat)
    requires j < 2 * bit
    ensures BitSet(j, bit) <==> j >= bit
  {
    if j >= bit { assert j / bit == 1; } else { assert j / bit == 0; }
  }

  lemma FlipBitBelow(j: nat, bit: nat)
    requires j < 2 * bit
    ensures FlipBit(j, bit) == if j >= bit then j - bit else j + bit
  {
    BitSetBelow(j, bit);
  }

  /** A carry out of the top reversed bit drops it and continues in the lower half. */
  lemma CarryStep(k: nat, m: nat)
    requires PowerOfTwo(m) && m > 1 && k < m
    ensures PowerOfTwo(m / 2) && k / 2 < m / 2 && Rev(k, m) < 2 * (m / 2)
    ensures k % 2 == 1 <==> Rev(k, m) >= m / 2
    ensures k % 2 == 1 ==> Rev(k, m) == m / 2 + Rev(k / 2, m / 2)
    ensures k % 2 == 1 && k + 1 < m ==> k / 2 + 1 < m / 2 && Rev(k + 1, m) == Rev(k / 2 + 1, m / 2)
    ensures k % 2 == 1 && k + 1 == m ==> k / 2 + 1 == m / 2
    ensures k % 2 == 0 ==> k + 1 < m && Rev(k + 1, m) == Rev(k, m) + m / 2
  {
    if k % 2 == 1 && k + 1 < m {
      assert (k + 1) / 2 == k / 2 + 1;
    }
  }

  /** Adds one to the reversed counter: j was the reversal of i and becomes that of i + 1. */
  method RevIncrement(j0: nat, i: nat, n: nat) returns (j: nat)
    requires PowerOfTwo(n) && i < n && j0 == Rev(i, n)
    ensures i + 1 < n ==> j == Rev(i + 1, n)
  {
    hide BitSet, FlipBit, Rev, PowerOfTwo;
    j := j0;
    var bit := n / 2;
    ghost var m: nat, k: nat := n, i;
    TopOf(j, bit, k, m);
    while BitSet(j, bit)
      invariant PowerOfTwo(m) && bit == m / 2 && 0 <= k < m && j == Rev(k, m)
      invariant BitSet(j, bit) <==> (m > 1 && k % 2 == 1)
      invariant i + 1 < n <==> k + 1 < m
      invariant k + 1 < m ==> Rev(i + 1, n) == Rev(k + 1, m)
      decreases m
    {
      CarryStep(k, m);
      FlipBitBelow(j, bit);
      j := FlipBit(j, bit);
      m, k := m / 2, k / 2;
      bit := bit / 2;
      TopOf(j, bit, k, m);
    }
    if m > 1 {
      CarryStep(k, m);
      FlipBitBelow(j, bit);
    }
    j := FlipBit(j, bit);
  }

  lemma TopOf(j: nat, bit: nat, k: nat, m: nat)
    requires PowerOfTwo(m) && bit == m / 2 && k < m && j == Rev(k, m)
    ensures BitSet(j, bit) <==> (m > 1 && k % 2 == 1)
  {
    if m > 1 {
      CarryStep(k, m);
      BitSetBelow(j, bit);
    }
  }

  /** Where position t stands once the first i indices have been visited. */
  ghost predicate Visited(t: nat, i: nat, n: nat)
    requires PowerOfTwo(n) && t < n
  {
    t < i || Rev(t, n) < i
  }

  /** Visiting i settles exactly the positions i and Rev(i). */
  lemma VisitStep(i: nat, n: nat, t: nat)
    requires PowerOfTwo(n) && i < n && t < n
    ensures Visited(t, i + 1, n) <==> (Visited(t, i, n) || t == i || t == Rev(i, n))
    ensures Rev(Rev(i, n), n) == i
    ensures t == i || t == Rev(i, n) ==> (Visited(t, i, n) <==> Rev(i, n) < i)
  {
    RevInvolution(i, n);
    RevInvolution(t, n);
  }

  method BitReverse(a: array<Felt>, lo: nat, n: nat)
    requires lo + n <= a.Length && PowerOfTwo(n)
    modifies a
    ensures a[lo..lo + n] == BitReversed(old(a[lo..lo + n]))
    ensures a[..lo] == old(a[..lo]) && a[lo + n..] == old(a[lo + n..])
  {
    hide Rev, PowerOfTwo, Visited, BitReversed, Reversing;
    ghost var x := a[..];
    var i, j := 0, 0;
    RevZero(n);
    NothingReversed(x, lo, n);
    while i < n
      invariant i <= n && (i < n ==> j == Rev(i, n)) && Reversing(x, a[..], lo, n, i)
    {
      ReversingStep(x, a[..], lo, n, i, j);
      if i < j {
        a[lo + i], a[lo + j] := a[lo + j], a[lo + i];
      }
      j := RevIncrement(j, i, n);
      i := i + 1;
    }
    AllReversed(x, a[..], lo, n);
  }

  /** What stands at position p once the first i indices of the slice have been visited. */
  ghost function TargetAt(x: seq<Felt>, lo: nat, n: nat, i: nat, p: nat): Felt
    requires PowerOfTwo(n) && lo + n <= |x| && p < |x|
  {
    hide Rev, Visited;
    if lo <= p < lo + n && Visited(p - lo, i, n) then x[lo + Rev(p - lo, n)] else x[p]
  }

  ghost predicate Reversing(x: seq<Felt>, a: seq<Felt>, lo: nat, n: nat, i: nat)
    requires PowerOfTwo(n) && lo + n <= |x|
  {
    |a| == |x| && forall p | 0 <= p < |x| :: a[p] == TargetAt(x, lo, n, i, p)
  }

  lemma NothingReversed(x: seq<Felt>, lo: nat, n: nat)
    requires PowerOfTwo(n) && lo + n <= |x|
    ensures Reversing(x, x, lo, n, 0)
  {
    hide PowerOfTwo, Rev, Visited;
    forall p | 0 <= p < |x|
      ensures x[p] == TargetAt(x, lo, n, 0, p)
    {
      if lo <= p < lo + n { NotVisited(p - lo, n); }
    }
  }

  lemma ReversingStep(x: seq<Felt>, a: seq<Felt>, lo: nat, n: nat, i: nat, j: nat)
    requires PowerOfTwo(n) && lo + n <= |x| && i < n && j == Rev(i, n) && Reversing(x, a, lo, n, i)
    ensures |a| == |x| && j < n
    ensures Reversing(x, if i < j then a[lo + i := a[lo + j]][lo + j := a[lo + i]] else a, lo, n, i + 1)
  {
    hide PowerOfTwo, Rev, Visited, TargetAt;
    var b := if i < j then a[lo + i := a[lo + j]][lo + j := a[lo + i]] else a;
    forall p | 0 <= p < |x|
      ensures b[p] == TargetAt(x, lo, n, i + 1, p)
    {
      if p == lo + i || p == lo + j {
        SwappedAt(x, lo, n, i, j);
      } else {
        UntouchedAt(x, lo, n, i, j, p);
      }
    }
  }

  /** Visiting i moves the two values it settles, or finds them settled. */
  lemma SwappedAt(x: seq<Felt>, lo: nat, n: nat, i: nat, j: nat)
    requires PowerOfTwo(n) && lo + n <= |x| && i < n && j == Rev(i, n)
    ensures if i < j then TargetAt(x, lo, n, i + 1, lo + i) == TargetAt(x, lo, n, i, lo + j)
                          && TargetAt(x, lo, n, i + 1, lo + j) == TargetAt(x, lo, n, i, lo + i)
            else TargetAt(x, lo, n, i + 1, lo + i) == TargetAt(x, lo, n, i, lo + i)
                 && TargetAt(x, lo, n, i + 1, lo + j) == TargetAt(x, lo, n, i, lo + j)
  {
    hide PowerOfTwo, Rev, Visited;
    VisitStep(i, n, i);
    VisitStep(i, n, j);
  }

  lemma UntouchedAt(x: seq<Felt>, lo: nat, n: nat, i: nat, j: nat, p: nat)
    requires PowerOfTwo(n) && lo + n <= |x| && i < n && j == Rev(i, n) && p < |x| && p != lo + i && p != lo + j
    ensures TargetAt(x, lo, n, i + 1, p) == TargetAt(x, lo, n, i, p)
  {
    hide PowerOfTwo, Rev, Visited;
    if lo <= p < lo + n { VisitStep(i, n, p - lo); }
  }

  lemma AllReversed(x: seq<Felt>, a: seq<Felt>, lo: nat, n: nat)
    requires PowerOfTwo(n) && lo + n <= |x| && Reversing(x, a, lo, n, n)
    ensures |a| == |x| && a[lo..lo + n] == BitReversed(x[lo..lo + n])
    ensures a[..lo] == x[..lo] && a[lo + n..] == x[lo + n..]
  {
    hide PowerOfTwo, Rev, Visited, BitReversed;
    var y := x[lo..lo + n];
    forall t | 0 <= t < n
      ensures a[lo..lo + n][t] == BitReversed(y)[t]
    {
      NotVisited(t, n);
      BitReversedIs(y, t);
    }
  }

  lemma ReversedOne(x: seq<Felt>)
    requires |x| == 1
    ensures PowerOfTwo(1) && BitReversed(x) == x
  {
    BitReversedIs(x, 0);
  }

  lemma BitReversedIs(y: seq<Felt>, t: nat)
    requires PowerOfTwo(|y|) && t < |y|
    ensures Rev(t, |y|) < |y| && BitReversed(y)[t] == y[Rev(t, |y|)]
  {
    hide Rev;
  }

  lemma NotVisited(t: nat, n: nat)
    requires PowerOfTwo(n) && t < n
    ensures !Visited(t, 0, n) && Visited(t, n, n)
  {}

  lemma {:induction false} RevZero(n: nat)
    requires PowerOfTwo(n)
    ensures Rev(0, n) == 0
  {
    if n > 1 { RevZero(n / 2); }
  }
}
