/**
 * What compute_intt of solomon-zk/src/intt.rs computes: the inverse transform in bit-reversed order,
 * with a sign at each position. The sign comes from the twiddle factor, which is not reset from block
 * to block and so starts every second block at -1.
 */
module FrequencyDecimation {
  import opened Congruence
  import opened Evaluation
  import opened Goldilocks
  import opened Fourier
  import opened BitReversal
  import opened RadixTwo
  import opened LowDegreeExtension

  // ----- block by block

  /** All passes on one block, the b-th among the blocks of its length. */
  ghost function Dif(y: seq<Felt>, w: int, ratio: nat, b: nat): (r: seq<Felt>)
    requires PowerOfTwo(|y|)
    ensures |r| == |y|
    decreases |y|
  {
    hide Block, FPow;
    if |y| == 1 then y
    else
      var h := |y| / 2;
      var g := Block(GentlemanSande, y, FPow(w, ratio), Times(b, h));
      Dif(g[..h], w, 2 * ratio, 2 * b) + Dif(g[h..], w, 2 * ratio, 2 * b + 1)
  }

  ghost function Times(a: nat, b: nat): nat { a * b }

  ghost function DifAll(y: seq<Felt>, w: int, len: nat, ratio: nat, blocks: nat): (r: seq<Felt>)
    requires PowerOfTwo(len) && Product(|y|, blocks, len)
    ensures |r| == |y|
    decreases blocks
  {
    hide Dif, Product, PowerOfTwo;
    LastBlock(|y|, blocks, len);
    if blocks == 0 then []
    else DifAll(y[..|y| - len], w, len, ratio, blocks - 1) + Dif(y[|y| - len..], w, ratio, blocks - 1)
  }

  lemma DifAllSnoc(a: seq<Felt>, c: seq<Felt>, w: int, len: nat, ratio: nat, blocks: nat)
    requires PowerOfTwo(len) && Product(|a|, blocks, len) && |c| == len
    ensures Product(|a + c|, blocks + 1, len)
    ensures DifAll(a + c, w, len, ratio, blocks + 1) == DifAll(a, w, len, ratio, blocks) + Dif(c, w, ratio, blocks)
  {
    hide Dif, PowerOfTwo;
    assert (a + c)[..|a + c| - len] == a && (a + c)[|a + c| - len..] == c;
    assert (blocks + 1) * len == blocks * len + len;
  }

  /** A pass over all blocks followed by the rest on half blocks. */
  lemma {:induction false} DifAllStep(y: seq<Felt>, w: int, len: nat, ratio: nat, blocks: nat)
    requires PowerOfTwo(len) && len > 1 && Product(|y|, blocks, len)
    ensures len % 2 == 0 && PowerOfTwo(len / 2) && Product(|y|, 2 * blocks, len / 2)
    ensures DifAll(RunningPass(GentlemanSande, y, len, FPow(w, ratio)), w, len / 2, 2 * ratio, 2 * blocks)
            == DifAll(y, w, len, ratio, blocks)
    decreases blocks
  {
    hide Block, FPow, RunningPass, DifAll, Product, PowerOfTwo, Dif, Times;
    HalfBlocks(|y|, blocks, len);
    var h, s := len / 2, FPow(w, ratio);
    LastBlock(|y|, blocks, len);
    if blocks == 0 {
      assert y == [];
      NoRunningBlocks(GentlemanSande, len, s);
      NoDif(w, len, ratio);
      NoDif(w, h, 2 * ratio);
    } else {
      var m, b := |y| - len, blocks - 1;
      var a, c := y[..m], y[m..];
      assert y == a + c;
      DifAllStep(a, w, len, ratio, b);
      DifAllSnoc(a, c, w, len, ratio, b);
      RunningPassUnfold(GentlemanSande, a, c, len, s);
      var r, g := RunningPass(GentlemanSande, a, len, s), Block(GentlemanSande, c, s, m / 2);
      HalfStart(m, b, len);
      TwoHalves(r, g, w, h, 2 * ratio, 2 * b);
      DifUnfold(c, w, ratio, b);
      assert 2 * blocks == 2 * b + 2;
    }
  }

  lemma TwoHalves(r: seq<Felt>, g: seq<Felt>, w: int, h: nat, ratio: nat, blocks: nat)
    requires PowerOfTwo(h) && Product(|r|, blocks, h) && |g| == 2 * h
    ensures Product(|r + g|, blocks + 2, h)
    ensures DifAll(r + g, w, h, ratio, blocks + 2)
            == DifAll(r, w, h, ratio, blocks) + (Dif(g[..h], w, ratio, blocks) + Dif(g[h..], w, ratio, blocks + 1))
  {
    hide DifAll, Dif, PowerOfTwo, Product;
    assert r + g == (r + g[..h]) + g[h..];
    DifAllSnoc(r, g[..h], w, h, ratio, blocks);
    DifAllSnoc(r + g[..h], g[h..], w, h, ratio, blocks + 1);
  }

  lemma DifUnfold(y: seq<Felt>, w: int, ratio: nat, b: nat)
    requires PowerOfTwo(|y|) && |y| > 1
    ensures |y| % 2 == 0 && PowerOfTwo(|y| / 2)
    ensures var h := |y| / 2; var g := Block(GentlemanSande, y, FPow(w, ratio), Times(b, h));
            Dif(y, w, ratio, b) == Dif(g[..h], w, 2 * ratio, 2 * b) + Dif(g[h..], w, 2 * ratio, 2 * b + 1)
  {
    hide Block, FPow;
  }

  lemma NoDif(w: int, len: nat, ratio: nat)
    requires PowerOfTwo(len)
    ensures Product(0, 0, len) && DifAll([], w, len, ratio, 0) == []
  {}

  lemma HalfBlocks(n: nat, blocks: nat, len: nat)
    requires PowerOfTwo(len) && len > 1 && Product(n, blocks, len)
    ensures len % 2 == 0 && PowerOfTwo(len / 2) && Product(n, 2 * blocks, len / 2)
  {
    hide Product;
    HalfProduct(n, blocks, len / 2);
  }

  lemma HalfProduct(n: nat, blocks: nat, h: nat)
    requires Product(n, blocks, 2 * h)
    ensures Product(n, 2 * blocks, h)
  {
    assert (2 * blocks) * h == blocks * (2 * h);
  }

  lemma HalfStart(m: nat, b: nat, len: nat)
    requires len % 2 == 0 && Product(m, b, len)
    ensures m / 2 == Times(b, len / 2)
  {
    var h := len / 2;
    assert b * (2 * h) == 2 * (b * h);
  }

  lemma {:induction false} UnitBlocks(y: seq<Felt>, w: int, ratio: nat)
    ensures PowerOfTwo(1) && Product(|y|, |y|, 1) && DifAll(y, w, 1, ratio, |y|) == y
    decreases |y|
  {
    if y != [] {
      var a, c := y[..|y| - 1], y[|y| - 1..];
      UnitBlocks(a, w, ratio);
      DifAllSnoc(a, c, w, 1, ratio, |a|);
      assert y == a + c;
    }
  }

  /** The passes of the loop, block by block. */
  lemma {:induction false} PassesAreDif(y: seq<Felt>, w: int, len: nat, ratio: nat, blocks: nat)
    requires PowerOfTwo(len) && Product(|y|, blocks, len)
    ensures InversePasses(y, w, len, ratio) == DifAll(y, w, len, ratio, blocks)
    decreases len
  {
    hide RunningPass, FPow, DifAll;
    if len == 1 {
      UnitBlocks(y, w, ratio);
    } else {
      DifAllStep(y, w, len, ratio, blocks);
      PassesAreDif(RunningPass(GentlemanSande, y, len, FPow(w, ratio)), w, len / 2, 2 * ratio, 2 * blocks);
    }
  }

  lemma InttIsDif(x: seq<Felt>)
    requires Length(|x|) && |x| > 1
    ensures Intt(x) == Scale(Dif(x, FInv(Root(|x|)), 1, 0), FInv(FromU64(|x|)))
  {
    hide InversePasses, FInv, Root, Scale, Dif, FromU64;
    var n, w := |x|, FInv(Root(|x|));
    PassesAreDif(x, w, n, 1, 1);
    NoDif(w, n, 1);
    DifAllSnoc([], x, w, n, 1, 0);
    assert [] + x == x && [] + Dif(x, w, 1, 0) == Dif(x, w, 1, 0);
  }

  // ----- the two halves of a block

  /** w^(h * e) for a root of order 2h. */
  lemma HalfPower(s: int, h: nat, e: nat, z: int)
    requires Cong(Pow(s, h), -1, P) && z == Pow(s, e)
    ensures Cong(Pow(z, h), if e % 2 == 0 then 1 else -1, P)
  {
    hide Pow, Cong;
    PowMul(s, e, h);
    PowMul(s, h, e);
    assert e * h == h * e;
    PowCong(Pow(s, h), -1, e, P);
    PowMinusOne(e);
  }

  ghost function Plus(a: int, k: int, b: int): int { a + k * b }

  /** The value of a block at z, from its halves. */
  lemma HalvesEval(y: seq<Felt>, h: nat, z: int, u: int)
    requires |y| == 2 * h && Cong(Pow(z, h), u, P)
    ensures Cong(Eval(y, z), Eval(y[..h], z) + u * Eval(y[h..], z), P)
  {
    hide Eval, Pow;
    EvalConcat(y[..h], y[h..], z);
    assert y == y[..h] + y[h..];
    CongMul(Pow(z, h), u, Eval(y[h..], z), Eval(y[h..], z), P);
    CongAdd(Eval(y[..h], z), Eval(y[..h], z), Pow(z, h) * Eval(y[h..], z), u * Eval(y[h..], z), P);
  }

  /** The upper half holds the even frequencies. */
  lemma UpperEval(y: seq<Felt>, s: int, start: nat, m: nat)
    requires |y| % 2 == 0 && |y| > 0 && Cong(Pow(s, |y| / 2), -1, P)
    ensures var h := |y| / 2;
            Cong(Eval(Block(GentlemanSande, y, s, start)[..h], Pow(s, 2 * m)), Eval(y, Pow(s, 2 * m)), P)
  {
    hide Eval, Pow, FAdd, FSub, FMul, FPow, Cong;
    var h, z := |y| / 2, Pow(s, 2 * m);
    var g, lo, hi := Block(GentlemanSande, y, s, start)[..h], y[..h], y[h..];
    forall k | 0 <= k < h
      ensures Cong(g[k], Plus(lo[k], 1, hi[k]), P)
    {
      FAddCong(lo[k], hi[k]);
    }
    EvalLinear(lo, hi, 1, g, z, P);
    HalfPower(s, h, 2 * m, z);
    HalvesEval(y, h, z, 1);
    SameClass(Eval(g, z), Eval(lo, z) + 1 * Eval(hi, z), Eval(y, z));
  }

  lemma SameClass(a: int, b: int, c: int)
    requires Cong(a, b, P) && Cong(c, b, P)
    ensures Cong(a, c, P)
  {}

  ghost function Parity(b: nat): (r: int)
    ensures r == 1 || r == -1
  {
    if b % 2 == 0 then 1 else -1
  }

  ghost function Differences(y: seq<Felt>): (d: seq<Felt>)
    requires |y| % 2 == 0
    ensures |d| == |y| / 2 && forall k | 0 <= k < |y| / 2 :: d[k] == FSub(y[k], y[k + |y| / 2])
  {
    hide FSub;
    seq(|y| / 2, k requires 0 <= k < |y| / 2 => FSub(y[k], y[k + |y| / 2]))
  }

  lemma DifferenceEval(y: seq<Felt>, s: int, m: nat)
    requires |y| % 2 == 0 && |y| > 0 && Cong(Pow(s, |y| / 2), -1, P)
    ensures var t := Pow(s, 2 * m + 1); Cong(Eval(Differences(y), t), Eval(y, t), P)
  {
    hide Eval, Pow, FSub, Cong;
    var h, t := |y| / 2, Pow(s, 2 * m + 1);
    var lo, hi, d := y[..h], y[h..], Differences(y);
    forall k | 0 <= k < h
      ensures Cong(d[k], Plus(lo[k], -1, hi[k]), P)
    {
      FSubCong(lo[k], hi[k]);
    }
    EvalLinear(lo, hi, -1, d, t, P);
    HalfPower(s, h, 2 * m + 1, t);
    HalvesEval(y, h, t, -1);
    SameClass(Eval(d, t), Eval(lo, t) + -1 * Eval(hi, t), Eval(y, t));
  }

  lemma LowerTwist(y: seq<Felt>, s: int, b: nat, z: int)
    requires |y| % 2 == 0 && |y| > 0 && Cong(Pow(s, |y| / 2), -1, P)
    ensures var h := |y| / 2;
            Cong(Eval(Block(GentlemanSande, y, s, Times(b, h))[h..], z), Parity(b) * Eval(Differences(y), s * z), P)
  {
    hide Eval, Pow, FSub, FMul, FPow, Cong, Times, Parity;
    var h, u := |y| / 2, Parity(b);
    var g, d := Block(GentlemanSande, y, s, Times(b, h))[h..], Differences(y);
    forall k | 0 <= k < h
      ensures Cong(g[k], u * Pow(s, k) * d[k], P)
    {
      TwiddleOf(s, h, b, k);
      FMulCong(d[k], FPow(s, Times(b, h) + k));
      Twisted(g[k], d[k], FPow(s, Times(b, h) + k), u * Pow(s, k));
    }
    EvalTwist(d, g, s, u, z, P);
  }

  /** The lower half holds the odd ones, negated in every second block. */
  lemma LowerEval(y: seq<Felt>, s: int, b: nat, m: nat)
    requires |y| % 2 == 0 && |y| > 0 && Cong(Pow(s, |y| / 2), -1, P)
    ensures var h := |y| / 2;
            Cong(Eval(Block(GentlemanSande, y, s, Times(b, h))[h..], Pow(s, 2 * m)),
                 Parity(b) * Eval(y, Pow(s, 2 * m + 1)), P)
  {
    hide Eval, Pow, Cong, Block, Times, Parity, Differences;
    var z, t := Pow(s, 2 * m), Pow(s, 2 * m + 1);
    LowerTwist(y, s, b, z);
    PowOdd(s, m);
    DifferenceEval(y, s, m);
    CongMulLeft(Parity(b), Eval(Differences(y), t), Eval(y, t), P);
    Chain(Eval(Block(GentlemanSande, y, s, Times(b, |y| / 2))[|y| / 2..], z), Parity(b) * Eval(Differences(y), t),
          Parity(b) * Eval(y, t));
  }

  lemma Chain(a: int, b: int, c: int)
    requires Cong(a, b, P) && Cong(b, c, P)
    ensures Cong(a, c, P)
  {}

  lemma PowOdd(s: int, m: nat)
    ensures Pow(s, 2 * m + 1) == s * Pow(s, 2 * m)
  {}

  lemma Twisted(g: int, d: int, f: int, v: int)
    requires Cong(g, d * f, P) && Cong(f, v, P)
    ensures Cong(g, v * d, P)
  {
    CongMulLeft(d, f, v, P);
    assert d * v == v * d;
  }

  /** The twiddle of butterfly k of block b. */
  lemma TwiddleOf(s: int, h: nat, b: nat, k: nat)
    requires Cong(Pow(s, h), -1, P)
    ensures Cong(FPow(s, Times(b, h) + k), Parity(b) * Pow(s, k), P)
  {
    hide Pow, FPow, Cong;
    var e := Times(b, h);
    PowAdd(s, e, k);
    PowTimes(s, b, h);
    PowCong(Pow(s, h), -1, b, P);
    PowMinusOne(b);
    CongMul(Pow(s, e), Parity(b), Pow(s, k), Pow(s, k), P);
    FPowIs(s, e + k);
    Chain(FPow(s, e + k), Pow(s, e + k), Parity(b) * Pow(s, k));
  }

  lemma PowTimes(s: int, b: nat, h: nat)
    ensures Pow(s, Times(b, h)) == Pow(Pow(s, h), b)
  {
    hide Pow;
    PowMul(s, h, b);
    assert h * b == b * h;
  }

  lemma FPowIs(s: int, e: nat)
    ensures Cong(FPow(s, e), Pow(s, e), P)
  {}

  // ----- all of a block

  /** The sign at position i of block b. */
  ghost function Sign(b: nat, i: nat, len: nat): (r: int)
    requires PowerOfTwo(len) && i < len
    ensures r == 1 || r == -1
    decreases len
  {
    if len == 1 then 1
    else if i < len / 2 then Sign(2 * b, i, len / 2)
    else Parity(b) * Sign(2 * b + 1, i - len / 2, len / 2)
  }

  lemma SignUnfold(b: nat, i: nat, len: nat)
    requires PowerOfTwo(len) && i < len && len > 1
    ensures len % 2 == 0 && PowerOfTwo(len / 2)
    ensures i < len / 2 ==> Sign(b, i, len) == Sign(2 * b, i, len / 2)
    ensures i >= len / 2 ==> Sign(b, i, len) == Parity(b) * Sign(2 * b + 1, i - len / 2, len / 2)
  {
    hide Parity;
  }

  lemma HalfOrder(s: int, s2: int, n: nat)
    requires PowerOfTwo(n) && n > 1 && IsRoot(s, n) && Cong(s2, s * s, P)
    ensures Cong(Pow(s, n / 2), -1, P) && PowerOfTwo(n / 2) && n % 2 == 0 && IsRoot(s2, n / 2)
  {
    hide Pow;
    RootSquare(s, n);
    if n / 2 > 1 { PowCong(s2, s * s, n / 2 / 2, P); }
  }

  lemma DoubledRatio(w: int, ratio: nat)
    ensures Cong(FPow(w, 2 * ratio), FPow(w, ratio) * FPow(w, ratio), P)
  {
    hide Pow, Cong;
    FPowIs(w, ratio);
    FPowIs(w, 2 * ratio);
    PowAdd(w, ratio, ratio);
    CongMul(FPow(w, ratio), Pow(w, ratio), FPow(w, ratio), Pow(w, ratio), P);
    SameClass(FPow(w, 2 * ratio), Pow(w, 2 * ratio), FPow(w, ratio) * FPow(w, ratio));
  }

  /** Frequency m of a half block, at the squared root. */
  lemma HalfFrequency(g: seq<Felt>, s: int, s2: int, m: nat, v: int)
    requires m < |g| && Cong(s2, s * s, P) && Cong(Eval(g, Pow(s, 2 * m)), v, P)
    ensures Cong(Dft(g, s2)[m], v, P)
  {
    hide Eval, Pow, Cong;
    PowTwo(s);
    PowMul(s, 2, m);
    PowCong(s2, s * s, m, P);
    EvalAt(g, Pow(s2, m), Pow(s, 2 * m));
    CongMod(Eval(g, Pow(s2, m)), P);
    Chain(Dft(g, s2)[m], Eval(g, Pow(s2, m)), Eval(g, Pow(s, 2 * m)));
    Chain(Dft(g, s2)[m], Eval(g, Pow(s, 2 * m)), v);
  }

  lemma EvalAt(g: seq<Felt>, x: int, y: int)
    requires Cong(x, y, P)
    ensures Cong(Eval(g, x), Eval(g, y), P)
  {
    EvalCong(g, g, x, y, P);
  }

  lemma DftClass(y: seq<Felt>, s: int, k: nat)
    requires k < |y|
    ensures Cong(Eval(y, Pow(s, k)), Dft(y, s)[k], P)
  {
    hide Eval, Pow;
    CongMod(Eval(y, Pow(s, k)), P);
  }

  /** Position i of block b is frequency rev(i), up to the sign. */
  lemma {:induction false} DifIs(y: seq<Felt>, w: int, ratio: nat, b: nat, i: nat)
    requires PowerOfTwo(|y|) && i < |y| && IsRoot(FPow(w, ratio), |y|)
    ensures Cong(Dif(y, w, ratio, b)[i], Sign(b, i, |y|) * Dft(y, FPow(w, ratio))[Rev(i, |y|)], P)
    decreases |y|
  {
    hide Block, FPow, Dft, Rev, IsRoot, Cong, Dif, PowerOfTwo, Sign, Parity, Times;
    var n, s, s2 := |y|, FPow(w, ratio), FPow(w, 2 * ratio);
    if n == 1 {
      OnePoint(y, w, ratio, b);
    } else {
      var h := n / 2;
      SignUnfold(b, i, n);
      var g := Block(GentlemanSande, y, s, Times(b, h));
      DoubledRatio(w, ratio);
      HalfOrder(s, s2, n);
      DifUnfold(y, w, ratio, b);
      RevFromTop(i, n);
      if i < h {
        var m := Rev(i, h);
        DifIs(g[..h], w, 2 * ratio, 2 * b, i);
        UpperEval(y, s, Times(b, h), m);
        DftClass(y, s, 2 * m);
        HalfFrequency(g[..h], s, s2, m, Eval(y, Pow(s, 2 * m)));
        Chain(Dft(g[..h], s2)[m], Eval(y, Pow(s, 2 * m)), Dft(y, s)[2 * m]);
        Signed(Dif(y, w, ratio, b)[i], Sign(2 * b, i, h), Dft(g[..h], s2)[m], 1, Dft(y, s)[2 * m]);
      } else {
        var m := Rev(i - h, h);
        DifIs(g[h..], w, 2 * ratio, 2 * b + 1, i - h);
        LowerEval(y, s, b, m);
        DftClass(y, s, 2 * m + 1);
        HalfFrequency(g[h..], s, s2, m, Parity(b) * Eval(y, Pow(s, 2 * m + 1)));
        CongMulLeft(Parity(b), Eval(y, Pow(s, 2 * m + 1)), Dft(y, s)[2 * m + 1], P);
        Chain(Dft(g[h..], s2)[m], Parity(b) * Eval(y, Pow(s, 2 * m + 1)), Parity(b) * Dft(y, s)[2 * m + 1]);
        Signed(Dif(y, w, ratio, b)[i], Sign(2 * b + 1, i - h, h), Dft(g[h..], s2)[m], Parity(b), Dft(y, s)[2 * m + 1]);
      }
    }
  }

  lemma Signed(d: int, sign: int, x: int, u: int, v: int)
    requires Cong(d, sign * x, P) && Cong(x, u * v, P)
    ensures Cong(d, (u * sign) * v, P)
  {
    CongMulLeft(sign, x, u * v, P);
    assert sign * (u * v) == (u * sign) * v;
  }

  lemma OnePoint(y: seq<Felt>, w: int, ratio: nat, b: nat)
    requires |y| == 1
    ensures PowerOfTwo(1) && Rev(0, 1) == 0 && Sign(b, 0, 1) == 1
    ensures Cong(Dif(y, w, ratio, b)[0], 1 * Dft(y, FPow(w, ratio))[0], P)
  {
    assert y[1..] == [] && Eval(y, Pow(FPow(w, ratio), 0)) == y[0];
  }

  /** The number of places where two neighbouring binary digits of i are both 1. */
  ghost function Adjacent(i: nat): nat
  {
    if i == 0 then 0 else Adjacent(i / 2) + if i % 2 == 1 && i / 2 % 2 == 1 then 1 else 0
  }

  lemma {:induction false} SignMeans(b: nat, i: nat, len: nat)
    requires PowerOfTwo(len) && i < len
    ensures Parity(Adjacent(Times(b, len) + i)) == Parity(Adjacent(b)) * Sign(b, i, len)
    decreases len
  {
    hide Adjacent;
    if len > 1 {
      var h := len / 2;
      AppendBit(b, i, h);
      AppendedPair(b);
      if i < h { SignMeans(2 * b, i, h); } else { SignMeans(2 * b + 1, i - h, h); }
    }
  }

  lemma AppendBit(b: nat, i: nat, h: nat)
    ensures Times(b, 2 * h) + i == Times(2 * b, h) + i
    ensures i >= h ==> Times(b, 2 * h) + i == Times(2 * b + 1, h) + (i - h)
  {
    assert b * (2 * h) == (2 * b) * h;
    assert (2 * b + 1) * h == (2 * b) * h + h;
  }

  lemma AppendedPair(b: nat)
    ensures Parity(Adjacent(2 * b)) == Parity(Adjacent(b))
    ensures Parity(Adjacent(2 * b + 1)) == Parity(b) * Parity(Adjacent(b))
  {
    AppendedCount(b);
    ParitySum(Adjacent(b), b);
  }

  lemma AppendedCount(b: nat)
    ensures Adjacent(2 * b) == Adjacent(b) && Adjacent(2 * b + 1) == Adjacent(b) + b % 2
  {
    var odd := 2 * b + 1;
    assert odd / 2 == b && odd % 2 == 1 && (2 * b) / 2 == b;
  }

  lemma ParitySum(a: nat, b: nat)
    ensures Parity(a + b % 2) == Parity(b) * Parity(a)
  {}

  lemma SignAt(i: nat, n: nat)
    requires PowerOfTwo(n) && i < n
    ensures Sign(0, i, n) == Parity(Adjacent(i))
  {
    SignMeans(0, i, n);
    assert Times(0, n) == 0;
  }

  /**
   * compute_intt: position i holds the inverse transform at rev(i), negated if i has an odd number of
   * neighbouring ones in binary, for every accepted length.
   */
  lemma InttMeans(x: seq<Felt>, i: nat)
    requires Length(|x|) && i < |x|
    ensures |Intt(x)| == |x| && Cong(Intt(x)[i], Parity(Adjacent(i)) * InverseDft(x)[Rev(i, |x|)], P)
  {
    hide Dif, Dft, Rev, Root, FInv, FPow, IsRoot, Cong, FromU64, FMul, Sign, PowerOfTwo, Parity, Adjacent;
    var n := |x|;
    SignAt(i, n);
    if n == 1 {
      OneSample(x);
    } else {
      var w, c := FInv(Root(n)), FInv(FromU64(n));
      InttIsDif(x);
      RootInverse(n);
      FirstPower(w);
      DifIs(x, w, 1, 0, i);
      DftRootCong(x, FPow(w, 1), w);
      var r := Rev(i, n);
      ScaledPoint(Dif(x, w, 1, 0)[i], Dft(x, w)[r], c, Sign(0, i, n));
    }
  }

  lemma FirstPower(w: Felt)
    ensures Cong(FPow(w, 1), w, P) && (forall n | IsRoot(w, n) :: IsRoot(FPow(w, 1), n))
  {
    assert Pow(w, 1) == w * Pow(w, 0);
    CongMod(w, P);
    CongCanonical(w, w, P);
    assert FPow(w, 1) == w;
  }

  lemma ScaledPoint(d: Felt, f: Felt, c: Felt, sign: int)
    requires Cong(d, sign * f, P)
    ensures Cong(FMul(d, c), sign * FMul(f, c), P)
  {
    hide FMul;
    FMulCong(d, c);
    FMulCong(f, c);
    CongMul(d, sign * f, c, c, P);
    CongMulLeft(sign, FMul(f, c), f * c, P);
    assert (sign * f) * c == sign * (f * c);
  }

  lemma OneSample(x: seq<Felt>)
    requires |x| == 1
    ensures Length(1) && Rev(0, 1) == 0 && Cong(Intt(x)[0], Sign(0, 0, 1) * InverseDft(x)[0], P)
  {
    hide FInv, FMul;
    InverseDftRoundTrips(x);
    var f := InverseDft(x);
    assert f[1..] == [] && Eval(f, Pow(Root(1), 0)) == f[0];
    assert Dft(f, Root(1))[0] == f[0];
  }

  /**
   * compute_forward_ntt: the transform of the coefficients put back in order, each with the sign of the
   * position it came from.
   */
  lemma ForwardMeans(c: seq<Felt>, d: seq<Felt>)
    requires Length(|c|) && |d| == |c|
    requires forall i | 0 <= i < |c| :: Cong(d[Rev(i, |c|)], Parity(Adjacent(i)) * c[i], P)
    ensures ForwardNtt(c) == Dft(d, Root(|c|))
  {
    hide Dft, Rev, Root, PowerOfTwo, Parity, Adjacent, Intt, ForwardNtt, InverseDft, Cong;
    LengthPositive(|c|);
    var x := Dft(d, Root(|c|));
    InverseDftRoundTrips(d);
    ForwardUndoesIntt(x);
    forall i | 0 <= i < |c|
      ensures Intt(x)[i] == c[i]
    {
      InttMeans(x, i);
      TwiceSigned(Intt(x)[i], Parity(Adjacent(i)), d[Rev(i, |c|)], c[i]);
    }
    assert Intt(x) == c;
  }

  lemma TwiceSigned(a: Felt, sign: int, d: int, c: Felt)
    requires Cong(a, sign * d, P) && Cong(d, sign * c, P) && (sign == 1 || sign == -1)
    ensures a == c
  {
    CongMulLeft(sign, d, sign * c, P);
    assert sign * (sign * c) == c;
    CongCanonical(a, c, P);
    CongCanonical(c, c, P);
  }
}
