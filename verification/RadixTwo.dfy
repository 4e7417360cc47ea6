/**
 * The in-place radix-2 transforms of solomon-zk/src/ntt.rs on a slice a[lo..lo+n], with the
 * chunked scalar multiplication of solomon-zk/src/simd/mod.rs, proved against the definition
 * of the discrete Fourier transform.
 */
module RadixTwo {
  import opened Congruence
  import opened Evaluation
  import opened Goldilocks
  import opened Fourier
  import opened BitReversal

  // ----- the passes as functions

  /** One pass with blocks of length len, block by block from the end. */
  ghost function Pass(y: seq<Felt>, len: nat, s: int): (r: seq<Felt>)
    requires len > 0 && len % 2 == 0
    ensures |r| == |y|
  {
    if |y| < len then y
    else Pass(y[..|y| - len], len, s) + Butterflies(y[|y| - len..], s)
  }

  /** The passes with block lengths 2, 4, ..., len, where ratio is the array length over len. */
  ghost function Passes(y: seq<Felt>, w: int, len: nat, ratio: nat): (r: seq<Felt>)
    requires PowerOfTwo(len)
    ensures |r| == |y|
    decreases len
  {
    hide Pass, FPow;
    if len == 1 then y else Pass(Passes(y, w, len / 2, 2 * ratio), len, FPow(w, ratio))
  }

  lemma {:induction false} PassConcat(a: seq<Felt>, b: seq<Felt>, len: nat, s: int, blocks: nat)
    requires len > 0 && len % 2 == 0 && |b| == blocks * len
    ensures Pass(a + b, len, s) == Pass(a, len, s) + Pass(b, len, s)
    decreases blocks
  {
    hide Pass;
    if blocks == 0 {
      PassNothing(a, b, len, s);
    } else {
      var c, d := LastSlice(b, len, blocks);
      PassConcat(a, c, len, s, blocks - 1);
      PassLastBlock(a, c, d, len, s);
    }
  }

  lemma PassNothing(a: seq<Felt>, b: seq<Felt>, len: nat, s: int)
    requires len > 0 && len % 2 == 0 && |b| == 0
    ensures Pass(a + b, len, s) == Pass(a, len, s) + Pass(b, len, s)
  {
    hide Butterflies;
    assert a + b == a && Pass(b, len, s) == [];
  }

  /** The last of several slices of one length. */
  lemma LastSlice(b: seq<Felt>, len: nat, blocks: nat) returns (c: seq<Felt>, d: seq<Felt>)
    requires blocks > 0 && |b| == blocks * len
    ensures b == c + d && |c| == (blocks - 1) * len && |d| == len
  {
    assert |b| == (blocks - 1) * len + len && (blocks - 1) * len >= 0;
    c, d := b[..|b| - len], b[|b| - len..];
  }

  lemma PassLastBlock(a: seq<Felt>, c: seq<Felt>, d: seq<Felt>, len: nat, s: int)
    requires len > 0 && len % 2 == 0 && |d| == len
    requires Pass(a + c, len, s) == Pass(a, len, s) + Pass(c, len, s)
    ensures Pass(a + (c + d), len, s) == Pass(a, len, s) + Pass(c + d, len, s)
  {
    hide Butterflies, Pass;
    PassUnfold(a + c, d, len, s);
    PassUnfold(c, d, len, s);
    assert a + (c + d) == (a + c) + d;
  }

  lemma PassUnfold(c: seq<Felt>, d: seq<Felt>, len: nat, s: int)
    requires len > 0 && len % 2 == 0 && |d| == len
    ensures Pass(c + d, len, s) == Pass(c, len, s) + Butterflies(d, s)
  {
    hide Butterflies;
    assert (c + d)[..|c + d| - len] == c && (c + d)[|c + d| - len..] == d;
  }

  lemma FPowSquare(w: int, e: nat)
    ensures FPow(w * w, e) == FPow(w, 2 * e)
  {
    PowMul(w, 2, e);
    assert Pow(w, 2) == w * Pow(w, 1) == w * w;
  }

  /** Passes that fit in a half act on the two halves separately, with the squared root. */
  lemma {:induction false} PassesConcat(a: seq<Felt>, b: seq<Felt>, w: int, len: nat, ratio: nat)
    requires PowerOfTwo(len) && |a| == |b| == ratio * len
    ensures Passes(a + b, w, len, 2 * ratio) == Passes(a, w * w, len, ratio) + Passes(b, w * w, len, ratio)
    decreases len
  {
    hide Pass, FPow;
    if len > 1 {
      assert ratio * len == (2 * ratio) * (len / 2);
      PassesConcat(a, b, w, len / 2, 2 * ratio);
      FPowSquare(w, ratio);
      PassConcat(Passes(a, w * w, len / 2, 2 * ratio), Passes(b, w * w, len / 2, 2 * ratio),
                 len, FPow(w, 2 * ratio), ratio);
    }
  }

  lemma ButterfliesStep(y: seq<Felt>, w: int)
    requires |y| % 2 == 0
    ensures Butterflies(y, FPow(w, 1)) == Butterflies(y, w)
  {
    hide Butterflies;
    forall k | 0 <= k < |y|
      ensures ButterflyAt(y, FPow(w, 1), k) == ButterflyAt(y, w, k)
    {
      hide FMul, FAdd, FSub;
      var e := if k < |y| / 2 then k else k - |y| / 2;
      assert Pow(w, 1) == w * Pow(w, 0) == w;
      PowCong(FPow(w, 1), w, e, P);
      FPowUnique(FPow(FPow(w, 1), e), w, e);
    }
  }

  /** The passes over the bit-reversed input compute the transform. */
  lemma {:induction false} PassesComputeDft(x: seq<Felt>, w: int)
    requires PowerOfTwo(|x|) && IsRoot(w, |x|)
    ensures Passes(BitReversed(x), w, |x|, 1) == Dft(x, w)
    decreases |x|
  {
    hide Butterflies, Dft, BitReversed, FEvens, FOdds, Pass, FPow, IsRoot;
    var n := |x|;
    if n == 1 {
      assert Eval(x, Pow(w, 0)) == x[0] + Pow(w, 0) * Eval(x[1..], Pow(w, 0));
      ReversedOne(x);
      assert BitReversed(x) == Dft(x, w);
    } else {
      var h := n / 2;
      var e, o := FEvens(x), FOdds(x);
      RootSquare(w, n);
      PassesComputeDft(e, w * w);
      PassesComputeDft(o, w * w);
      BitReversedHalves(x);
      PassesConcat(BitReversed(e), BitReversed(o), w, h, 1);
      var y := Dft(e, w * w) + Dft(o, w * w);
      LastPass(BitReversed(x), w, y);
      ButterfliesStep(y, w);
      DftDecimation(x, w);
    }
  }

  lemma LastPass(r: seq<Felt>, w: int, y: seq<Felt>)
    requires PowerOfTwo(|r|) && |r| > 1 && y == Passes(r, w, |r| / 2, 2)
    ensures Passes(r, w, |r|, 1) == Butterflies(y, FPow(w, 1))
  {
    hide Butterflies, FPow;
    OnePass(y, FPow(w, 1));
  }

  lemma OnePass(y: seq<Felt>, s: int)
    requires |y| > 0 && |y| % 2 == 0
    ensures Pass(y, |y|, s) == Butterflies(y, s)
  {
    hide Butterflies;
    assert y[..|y| - |y|] == [] && y[|y| - |y|..] == y;
    assert Pass([], |y|, s) == [];
  }

  // ----- the loops

  method ButterflyBlock(a: array<Felt>, i: nat, len: nat, step: Felt)
    requires len > 0 && len % 2 == 0 && i + len <= a.Length
    modifies a
    ensures a[i..i + len] == Butterflies(old(a[i..i + len]), step)
    ensures a[..i] == old(a[..i]) && a[i + len..] == old(a[i + len..])
  {
    hide FMul, FAdd, FSub, FPow, Butterflies, ButterflyAt, BlockState;
    ghost var was := a[..];
    var half := len / 2;
    var w: Felt := 1;
    FPowZero(step);
    BlockStart(was, i, len, step);
    for k := 0 to half
      invariant w == FPow(step, k) && BlockState(was, a[..], i, len, step, k)
    {
      PairStep(was, a[..], i, len, step, k);
      var u := a[i + k];
      var v := FMul(a[i + k + half], w);
      a[i + k] := FAdd(u, v);
      a[i + k + half] := FSub(u, v);
      FPowStep(step, k);
      w := FMul(w, step);
    }
    BlockEnd(was, a[..], i, len, step);
  }

  /** The array once the first k butterflies of the block at i have run. */
  ghost predicate BlockState(was: seq<Felt>, a: seq<Felt>, i: nat, len: nat, s: int, k: nat)
    requires len % 2 == 0 && i + len <= |was| && k <= len / 2
  {
    && |a| == |was|
    && forall p | 0 <= p < |was| ::
         a[p] == if i <= p < i + k || i + len / 2 <= p < i + len / 2 + k
                 then ButterflyAt(was[i..i + len], s, p - i) else was[p]
  }

  lemma BlockStart(was: seq<Felt>, i: nat, len: nat, s: int)
    requires len % 2 == 0 && i + len <= |was|
    ensures BlockState(was, was, i, len, s, 0)
  {}

  lemma PairStep(was: seq<Felt>, a: seq<Felt>, i: nat, len: nat, s: int, k: nat)
    requires len % 2 == 0 && i + len <= |was| && k < len / 2 && BlockState(was, a, i, len, s, k)
    ensures |a| == |was|
    ensures var p, q := i + k, i + k + len / 2; var v := FMul(a[q], FPow(s, k));
            BlockState(was, a[p := FAdd(a[p], v)][q := FSub(a[p], v)], i, len, s, k + 1)
  {
    hide FMul, FAdd, FSub, FPow, ButterflyAt;
    var x := was[i..i + len];
    ButterflyPair(x, s, k);
    assert x[k] == was[i + k] && x[k + len / 2] == was[i + k + len / 2];
  }

  lemma BlockEnd(was: seq<Felt>, a: seq<Felt>, i: nat, len: nat, s: int)
    requires len % 2 == 0 && i + len <= |was| && BlockState(was, a, i, len, s, len / 2)
    ensures |a| == |was| && a[i..i + len] == Butterflies(was[i..i + len], s)
    ensures a[..i] == was[..i] && a[i + len..] == was[i + len..]
  {
    hide ButterflyAt;
  }

  lemma ButterflyPair(x: seq<Felt>, s: int, k: nat)
    requires |x| % 2 == 0 && k < |x| / 2
    ensures ButterflyAt(x, s, k) == FAdd(x[k], FMul(x[k + |x| / 2], FPow(s, k)))
    ensures ButterflyAt(x, s, k + |x| / 2) == FSub(x[k], FMul(x[k + |x| / 2], FPow(s, k)))
  {
    hide FMul, FAdd, FSub, FPow;
  }

  lemma FPowZero(b: int)
    ensures FPow(b, 0) == 1
  {}

  method PassInPlace(a: array<Felt>, lo: nat, n: nat, len: nat, step: Felt, ghost blocks: nat)
    requires lo + n <= a.Length && len > 0 && len % 2 == 0 && Product(n, blocks, len)
    modifies a
    ensures a[lo..lo + n] == Pass(old(a[lo..lo + n]), len, step)
    ensures a[..lo] == old(a[..lo]) && a[lo + n..] == old(a[lo + n..])
  {
    hide Butterflies, ButterflyAt, Pass, Product;
    ghost var x := a[lo..lo + n];
    var i := 0;
    ghost var done: nat := 0;
    NoBlocks(len, step);
    while i < n
      invariant done <= blocks && Product(i, done, len) && i <= n
      invariant a[lo..lo + i] == Pass(x[..i], len, step)
      invariant a[lo + i..lo + n] == x[i..]
      invariant a[..lo] == old(a[..lo]) && a[lo + n..] == old(a[lo + n..])
      decreases n - i
    {
      NextBlock(i, n, done, blocks, len);
      ghost var y := a[..];
      FirstBlock(y, x, lo, n, i, len);
      ButterflyBlock(a, lo + i, len, step);
      BlockDone(y, a[..], x, lo, n, i, len, step);
      i := i + len;
      done := done + 1;
    }
    assert i == n;
    assert x[..n] == x;
  }

  lemma NoBlocks(len: nat, s: int)
    requires len > 0 && len % 2 == 0
    ensures Pass([], len, s) == [] && Product(0, 0, len)
  {}

  ghost predicate Product(n: int, blocks: int, len: int) { n == blocks * len }

  lemma NextBlock(i: nat, n: nat, done: nat, blocks: nat, len: nat)
    requires i < n && Product(i, done, len) && Product(n, blocks, len)
    ensures done < blocks && i + len <= n && Product(i + len, done + 1, len)
  {
    if done >= blocks { MonotoneBlocks(blocks, done, len); } else { MonotoneBlocks(done + 1, blocks, len); }
    assert (done + 1) * len == done * len + len;
  }

  lemma MonotoneBlocks(a: nat, b: nat, len: nat)
    requires a <= b
    ensures a * len <= b * len
  {}

  lemma FirstBlock(y: seq<Felt>, x: seq<Felt>, lo: nat, n: nat, i: nat, len: nat)
    requires lo + n <= |y| && |x| == n && i + len <= n && y[lo + i..lo + n] == x[i..]
    ensures y[lo + i..lo + i + len] == x[i..i + len]
  {
    assert y[lo + i..lo + i + len] == y[lo + i..lo + n][..len];
    assert x[i..i + len] == x[i..][..len];
  }

  lemma BlockDone(y: seq<Felt>, z: seq<Felt>, x: seq<Felt>, lo: nat, n: nat, i: nat, len: nat, s: Felt)
    requires |y| == |z| && lo + n <= |y| && |x| == n && i + len <= n && len > 0 && len % 2 == 0
    requires y[lo..lo + i] == Pass(x[..i], len, s) && y[lo + i..lo + n] == x[i..]
    requires z[lo + i..lo + i + len] == Butterflies(x[i..i + len], s)
    requires z[..lo + i] == y[..lo + i] && z[lo + i + len..] == y[lo + i + len..]
    ensures z[lo..lo + i + len] == Pass(x[..i + len], len, s)
    ensures z[lo + i + len..lo + n] == x[i + len..]
    ensures z[..lo] == y[..lo] && z[lo + n..] == y[lo + n..]
  {
    hide Butterflies, ButterflyAt, Pass;
    assert x[..i + len] == x[..i] + x[i..i + len];
    PassUnfold(x[..i], x[i..i + len], len, s);
    assert z[lo..lo + i] == z[..lo + i][lo..] == y[..lo + i][lo..] == y[lo..lo + i];
    assert z[lo..lo + i + len] == z[lo..lo + i] + z[lo + i..lo + i + len];
    assert z[lo + i + len..lo + n] == z[lo + i + len..][..n - i - len];
    assert y[lo + i + len..lo + n] == y[lo + i + len..][..n - i - len];
    assert y[lo + i + len..lo + n] == y[lo + i..lo + n][len..];
    assert z[..lo] == z[..lo + i][..lo];
    assert z[lo + n..] == z[lo + i + len..][n - i - len..];
    assert y[lo + n..] == y[lo + i + len..][n - i - len..];
  }

  /** Bit reversal followed by all passes, the body the two radix-2 transforms share. */
  method TransformInPlace(a: array<Felt>, lo: nat, n: nat, omega: Felt)
    requires lo + n <= a.Length && n > 1 && Length(n) && IsRoot(omega, n)
    modifies a
    ensures a[lo..lo + n] == Dft(old(a[lo..lo + n]), omega)
    ensures a[..lo] == old(a[..lo]) && a[lo + n..] == old(a[lo + n..])
  {
    hide Pass, IsRoot, Dft, BitReversed, FPow, Passes, PowerOfTwo;
    ghost var x := a[lo..lo + n];
    BitReverse(a, lo, n);
    ghost var r := a[lo..lo + n];
    var len := 2;
    ghost var ratio: nat := n;
    FirstLength(r, omega, n);
    while len <= n
      invariant len > 1 && len % 2 == 0 && PowerOfTwo(len / 2) && ratio * (len / 2) == n && len <= 2 * n
      invariant a[lo..lo + n] == Passes(r, omega, len / 2, ratio)
      invariant a[..lo] == old(a[..lo]) && a[lo + n..] == old(a[lo + n..])
      decreases 2 * n - len
    {
      NextLength(len, n, ratio, r, omega);
      var step := Exp(omega, n / len);
      PassInPlace(a, lo, n, len, step, n / len);
      ratio := ratio / 2;
      len := len * 2;
    }
    LengthAfter(len / 2, n, ratio);
    PassesComputeDft(x, omega);
  }

  lemma FirstLength(r: seq<Felt>, omega: Felt, n: nat)
    ensures PowerOfTwo(1) && Passes(r, omega, 1, n) == r
  {}

  lemma NextLength(len: nat, n: nat, ratio: nat, r: seq<Felt>, omega: Felt)
    requires len > 1 && len % 2 == 0 && PowerOfTwo(len / 2) && PowerOfTwo(n) && ratio * (len / 2) == n && len <= n
    ensures PowerOfTwo(len) && (n / len) * len == n && ratio / 2 == n / len
    ensures Passes(r, omega, len, n / len) == Pass(Passes(r, omega, len / 2, ratio), len, FPow(omega, n / len))
  {
    hide Pass, FPow;
    RatioStep(len, n, ratio);
  }

  lemma RatioStep(len: nat, n: nat, ratio: nat)
    requires len > 1 && len % 2 == 0 && PowerOfTwo(len / 2) && PowerOfTwo(n) && ratio * (len / 2) == n && len <= n
    ensures PowerOfTwo(len) && (n / len) * len == n && ratio == 2 * (n / len)
  {
    hide PowerOfTwo;
    var h := len / 2;
    HalfOfDouble(h);
    PowerOfTwoDivides(2 * h, n);
    RatioHalves(n, h, ratio);
  }

  lemma RatioHalves(n: nat, h: nat, ratio: nat)
    requires h > 0 && n % (2 * h) == 0 && ratio * h == n
    ensures (n / (2 * h)) * (2 * h) == n && ratio == 2 * (n / (2 * h))
  {
    var k := n / (2 * h);
    assert n == k * (2 * h);
    assert (2 * k) * h == k * (2 * h);
    SameFactor(2 * k, ratio, h);
  }

  lemma SameFactor(a: int, b: int, m: int)
    requires m > 0 && a * m == b * m
    ensures a == b
  {}

  lemma LengthAfter(half: nat, n: nat, ratio: nat)
    requires PowerOfTwo(half) && PowerOfTwo(n) && n < 2 * half <= 2 * n && ratio * half == n
    ensures half == n && ratio == 1
  {
    hide PowerOfTwo;
    RatioOne(half, n, ratio);
  }

  lemma RatioOne(half: nat, n: nat, ratio: nat)
    requires n < 2 * half <= 2 * n && ratio * half == n
    ensures half == n && ratio == 1
  {
    AtLeastTwice(ratio, half);
  }

  lemma AtLeastTwice(k: nat, m: nat)
    ensures k >= 2 ==> k * m >= 2 * m
    ensures k == 0 ==> k * m == 0
  {}

  /** forward_ntt_radix2. */
  method ForwardNttRadix2(a: array<Felt>, lo: nat, n: nat)
    requires lo + n <= a.Length && (n <= 1 || Length(n))
    modifies a
    ensures n > 0 ==> a[lo..lo + n] == Dft(old(a[lo..lo + n]), Root(n))
    ensures a[..lo] == old(a[..lo]) && a[lo + n..] == old(a[lo + n..])
  {
    if n <= 1 {
      if n == 1 { DftOfOne(a[lo..lo + n], Root(n)); }
      return;
    }
    var omega := GetRootOfUnity(n);
    RootIsRoot(n);
    TransformInPlace(a, lo, n, omega);
  }

  lemma DftOfOne(x: seq<Felt>, w: int)
    requires |x| == 1
    ensures Dft(x, w) == x
  {
    assert Eval(x, Pow(w, 0)) == x[0] + Pow(w, 0) * Eval(x[1..], Pow(w, 0));
  }

  // ----- scaling in chunks of eight lanes

  const LANES := 8

  function Broadcast(v: Felt): (r: seq<Felt>)
    ensures |r| == LANES && forall i | 0 <= i < LANES :: r[i] == v
  {
    seq(LANES, i => v)
  }

  method MulLanes(x: seq<Felt>, y: seq<Felt>) returns (r: seq<Felt>)
    requires |x| == LANES && |y| == LANES
    ensures |r| == LANES && forall i | 0 <= i < LANES :: r[i] == FMul(x[i], y[i])
  {
    hide FMul;
    r := [];
    for i := 0 to LANES
      invariant |r| == i && forall j | 0 <= j < i :: r[j] == FMul(x[j], y[j])
    {
      r := r + [FMul(x[i], y[i])];
    }
  }

  method StoreToSlice(r: seq<Felt>, a: array<Felt>, at: nat)
    requires |r| == LANES && at + LANES <= a.Length
    modifies a
    ensures a[at..at + LANES] == r
    ensures a[..at] == old(a[..at]) && a[at + LANES..] == old(a[at + LANES..])
  {
    for i := 0 to LANES
      invariant a[at..at + i] == r[..i]
      invariant a[..at] == old(a[..at]) && a[at + LANES..] == old(a[at + LANES..])
    {
      a[at + i] := r[i];
    }
  }

  /** vector_mul_scalar: chunks of eight lanes, then the tail one by one. */
  method VectorMulScalar(a: array<Felt>, lo: nat, n: nat, scalar: Felt)
    requires lo + n <= a.Length
    modifies a
    ensures a[lo..lo + n] == Scale(old(a[lo..lo + n]), scalar)
    ensures a[..lo] == old(a[..lo]) && a[lo + n..] == old(a[lo + n..])
  {
    hide FMul, Scale, ScaledTo;
    ghost var x := a[..];
    var vscalar := Broadcast(scalar);
    var i := 0;
    NothingScaled(x, lo, scalar);
    while i + 8 <= n
      invariant i <= n && ScaledTo(x, a[..], lo, lo + i, scalar)
    {
      var va := a[lo + i..lo + i + 8];
      var vres := MulLanes(va, vscalar);
      ghost var y := a[..];
      StoreToSlice(vres, a, lo + i);
      ChunkScaled(x, y, a[..], vres, lo, lo + i, scalar);
      i := i + 8;
    }
    while i < n
      invariant i <= n && ScaledTo(x, a[..], lo, lo + i, scalar)
    {
      OneScaled(x, a[..], lo, lo + i, scalar);
      a[lo + i] := FMul(a[lo + i], scalar);
      i := i + 1;
    }
    AllScaled(x, a[..], lo, lo + n, scalar);
  }

  /** x with the elements from lo up to hi multiplied. */
  ghost predicate ScaledTo(x: seq<Felt>, a: seq<Felt>, lo: nat, hi: nat, scalar: Felt)
  {
    |a| == |x| && forall p | 0 <= p < |x| :: a[p] == if lo <= p < hi then FMul(x[p], scalar) else x[p]
  }

  lemma NothingScaled(x: seq<Felt>, lo: nat, scalar: Felt)
    ensures ScaledTo(x, x, lo, lo, scalar)
  {}

  lemma OneScaled(x: seq<Felt>, a: seq<Felt>, lo: nat, at: nat, scalar: Felt)
    requires ScaledTo(x, a, lo, at, scalar) && lo <= at < |a|
    ensures ScaledTo(x, a[at := FMul(a[at], scalar)], lo, at + 1, scalar)
  {
    hide FMul;
  }

  lemma ChunkScaled(x: seq<Felt>, y: seq<Felt>, z: seq<Felt>, r: seq<Felt>, lo: nat, at: nat, scalar: Felt)
    requires ScaledTo(x, y, lo, at, scalar) && lo <= at && at + LANES <= |y| && |z| == |y| && |r| == LANES
    requires forall k | 0 <= k < LANES :: r[k] == FMul(y[at..at + LANES][k], scalar)
    requires z[at..at + LANES] == r && z[..at] == y[..at] && z[at + LANES..] == y[at + LANES..]
    ensures ScaledTo(x, z, lo, at + LANES, scalar)
  {
    hide FMul;
    forall p | 0 <= p < |x|
      ensures z[p] == if lo <= p < at + LANES then FMul(x[p], scalar) else x[p]
    {
      ChunkStored(y, z, r, at, p);
      if at <= p < at + LANES { assert r[p - at] == FMul(y[at..at + LANES][p - at], scalar); }
    }
  }

  lemma AllScaled(x: seq<Felt>, a: seq<Felt>, lo: nat, hi: nat, scalar: Felt)
    requires ScaledTo(x, a, lo, hi, scalar) && lo <= hi <= |x|
    ensures a[lo..hi] == Scale(x[lo..hi], scalar) && a[..lo] == x[..lo] && a[hi..] == x[hi..]
  {
    hide FMul;
  }

  lemma ChunkStored(y: seq<Felt>, z: seq<Felt>, r: seq<Felt>, at: nat, t: nat)
    requires |y| == |z| && |r| == LANES && at + LANES <= |y| && t < |y|
    requires z[at..at + LANES] == r && z[..at] == y[..at] && z[at + LANES..] == y[at + LANES..]
    ensures z[t] == if at <= t < at + LANES then r[t - at] else y[t]
  {
    if t < at {
      assert z[t] == z[..at][t] && y[t] == y[..at][t];
    } else if t < at + LANES {
      assert z[t] == z[at..at + LANES][t - at];
    } else {
      assert z[t] == z[at + LANES..][t - at - LANES] && y[t] == y[at + LANES..][t - at - LANES];
    }
  }

  // ----- the inverse transform

  /** What the inverse transforms compute: the transform at the inverse root, divided by n. */
  ghost function InverseDft(y: seq<Felt>): (r: seq<Felt>)
    requires Length(|y|)
    ensures |r| == |y|
  {
    Scale(Dft(y, FInv(Root(|y|))), FInv(FromU64(|y|)))
  }

  lemma LengthInverse(n: nat)
    requires Length(n)
    ensures FromU64(n) == n && Cong(n * FInv(FromU64(n)), 1, P)
  {
    var k := PowerOfTwoExponent(n);
    InverseOfTwoPower(n, k);
  }

  /** Both round trips between samples and spectrum. */
  lemma InverseDftRoundTrips(x: seq<Felt>)
    requires Length(|x|)
    ensures InverseDft(Dft(x, Root(|x|))) == x
    ensures Dft(InverseDft(x), Root(|x|)) == x
  {
    var n := |x|;
    assert n > 0;
    RootIsRoot(n);
    RootInverse(n);
    LengthInverse(n);
    hide Dft, Scale, PowerOfTwo, IsRoot, FPow, FMul, Root, FInv, FromU64;
    RoundTrips(x, Root(n), FInv(Root(n)), FInv(FromU64(n)));
  }

  lemma RoundTrips(x: seq<Felt>, w: Felt, v: Felt, c: Felt)
    requires PowerOfTwo(|x|) && IsRoot(w, |x|) && IsRoot(v, |x|)
    requires Cong(w * v, 1, P) && Cong(|x| * c, 1, P)
    ensures Scale(Dft(Dft(x, w), v), c) == x
    ensures Dft(Scale(Dft(x, v), c), w) == x
  {
    hide Dft, Scale, PowerOfTwo, IsRoot;
    DftInverse(x, w, v, c);
    assert w * v == v * w;
    DftInverse(x, v, w, c);
    ScaleCommutes(Dft(x, v), w, c);
  }

  lemma ScaleCommutes(y: seq<Felt>, w: int, c: Felt)
    ensures Dft(Scale(y, c), w) == Scale(Dft(y, w), c)
  {
    forall k | 0 <= k < |y|
      ensures Dft(Scale(y, c), w)[k] == Scale(Dft(y, w), c)[k]
    {
      ScaleCommutesAt(y, Pow(w, k), c);
    }
  }

  lemma ScaleCommutesAt(y: seq<Felt>, z: int, c: Felt)
    ensures Eval(Scale(y, c), z) % P == FMul((Eval(y, z) % P) as Felt, c)
  {
    hide FMul, Eval, Scale;
    var s := Scale(y, c);
    var e: Felt := Eval(y, z) % P;
    forall i | 0 <= i < |y|
      ensures Cong(s[i], 0 * y[i] + c * y[i], P)
    {
      FMulCong(y[i], c);
    }
    ScaledEval(y, s, z, c);
    CongMod(Eval(y, z), P);
    FMulCong(e, c);
    CongMul(e, Eval(y, z), c, c, P);
    CongCanonical(FMul(e, c), Eval(s, z), P);
  }

  lemma {:induction false} ScaledEval(y: seq<int>, s: seq<int>, z: int, c: int)
    requires |y| == |s| && forall i | 0 <= i < |y| :: Cong(s[i], 0 * y[i] + c * y[i], P)
    ensures Cong(Eval(s, z), Eval(y, z) * c, P)
  {
    forall i | 0 <= i < |y| ensures Cong(s[i], c * Pow(1, i) * y[i], P) { PowOne(i); }
    EvalTwist(y, s, 1, c, z, P);
    assert 1 * z == z && c * Eval(y, z) == Eval(y, z) * c;
  }

  /** inverse_ntt_radix2. */
  method InverseNttRadix2(a: array<Felt>, lo: nat, n: nat)
    requires lo + n <= a.Length && (n <= 1 || Length(n))
    modifies a
    ensures n > 0 ==> a[lo..lo + n] == InverseDft(old(a[lo..lo + n]))
    ensures a[..lo] == old(a[..lo]) && a[lo + n..] == old(a[lo + n..])
  {
    hide Dft, Scale, FInv, FPow, PowerOfTwo, IsRoot, FMul;
    if n <= 1 {
      if n == 1 { InverseOfOne(a[lo..lo + n]); }
      return;
    }
    var omega := GetRootOfUnity(n);
    RootInverse(n);
    NonZero(omega, FInv(omega));
    var omegaInv := Invert(omega);
    TransformInPlace(a, lo, n, omegaInv);
    LengthInverse(n);
    var nInv := Invert(FromU64(n));
    VectorMulScalar(a, lo, n, nInv);
  }

  lemma NonZero(a: Felt, b: Felt)
    requires Cong(a * b, 1, P)
    ensures a != 0
  {}

  lemma InverseOfOne(x: seq<Felt>)
    requires |x| == 1
    ensures Length(1) && InverseDft(x) == x
  {
    hide FMul;
    DftOfOne(x, FInv(Root(1)));
    LengthInverse(1);
    var c := FInv(FromU64(1));
    assert Cong(c, 1, P);
    FMulCong(x[0], c);
    CongMul(x[0], x[0], c, 1, P);
    CongCanonical(FMul(x[0], c), x[0], P);
    CongCanonical(x[0], x[0], P);
  }
}
