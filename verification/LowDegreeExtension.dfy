/**
 * The transform pair of solomon-zk/src/intt.rs and solomon-zk/src/lde.rs. Neither reorders its
 * input, and the twiddle factor runs on from block to block, so neither is the textbook
 * transform, but they undo each other. FrequencyDecimation.dfy says what each of them computes.
 */
module LowDegreeExtension {
  import opened Congruence
  import opened Goldilocks
  import opened Fourier
  import opened RadixTwo

  /** The two butterflies: Gentleman-Sande (inverse transform) and Cooley-Tukey (forward). */
  datatype Kind = GentlemanSande | CooleyTukey

  function Upper(kind: Kind, u: Felt, v: Felt, w: Felt): Felt
  {
    hide FMul, FAdd;
    match kind
    case GentlemanSande => FAdd(u, v)
    case CooleyTukey => FAdd(u, FMul(v, w))
  }

  function Lower(kind: Kind, u: Felt, v: Felt, w: Felt): Felt
  {
    hide FMul, FSub;
    match kind
    case GentlemanSande => FMul(FSub(u, v), w)
    case CooleyTukey => FSub(u, FMul(v, w))
  }

  /** Position k of a block after its butterflies, the first of which uses s^start. */
  ghost function BlockAt(kind: Kind, y: seq<Felt>, s: int, start: nat, k: nat): Felt
    requires |y| % 2 == 0 && k < |y|
  {
    hide Upper, Lower, FPow;
    var h := |y| / 2;
    if k < h then Upper(kind, y[k], y[k + h], FPow(s, start + k))
    else Lower(kind, y[k - h], y[k], FPow(s, start + k - h))
  }

  ghost function Block(kind: Kind, y: seq<Felt>, s: int, start: nat): (r: seq<Felt>)
    requires |y| % 2 == 0
    ensures |r| == |y|
    ensures forall k | 0 <= k < |y| :: r[k] == BlockAt(kind, y, s, start, k)
  {
    hide BlockAt;
    seq(|y|, k requires 0 <= k < |y| => BlockAt(kind, y, s, start, k))
  }

  /** One pass: the exponent of the twiddle counts all butterflies before this one. */
  ghost function RunningPass(kind: Kind, y: seq<Felt>, len: nat, s: int): (r: seq<Felt>)
    requires len > 0 && len % 2 == 0
    ensures |r| == |y|
  {
    if |y| < len then y
    else RunningPass(kind, y[..|y| - len], len, s) + Block(kind, y[|y| - len..], s, (|y| - len) / 2)
  }

  /** z is c times y, element by element. */
  ghost predicate ScaledBy(z: seq<Felt>, y: seq<Felt>, c: int)
  {
    |z| == |y| && forall i | 0 <= i < |y| :: Cong(z[i], c * y[i], P)
  }

  /** A Cooley-Tukey butterfly on c times a Gentleman-Sande butterfly is doubling by 2 * c. */
  lemma ButterflyInverse(u: Felt, v: Felt, w: Felt, w': Felt, c: int, a: Felt, b: Felt)
    requires Cong(w * w', 1, P)
    requires Cong(a, c * FAdd(u, v), P) && Cong(b, c * FMul(FSub(u, v), w'), P)
    ensures Cong(FAdd(a, FMul(b, w)), (2 * c) * u, P)
    ensures Cong(FSub(a, FMul(b, w)), (2 * c) * v, P)
  {
    hide FMul, FAdd, FSub, Cong;
    FAddCong(u, v);
    FSubCong(u, v);
    FMulCong(FSub(u, v), w');
    FMulCong(b, w);
    FAddCong(a, FMul(b, w));
    FSubCong(a, FMul(b, w));
    IntegerInverse(a, b, c, u, v, w, w', FAdd(u, v), FSub(u, v), FMul(FSub(u, v), w'), FMul(b, w),
                   FAdd(a, FMul(b, w)), FSub(a, FMul(b, w)));
  }

  lemma IntegerInverse(a: int, b: int, c: int, u: int, v: int, w: int, w': int, s: int, d: int, m: int, t: int,
                       sum: int, diff: int)
    requires Cong(w * w', 1, P) && Cong(a, c * s, P) && Cong(b, c * m, P)
    requires Cong(s, u + v, P) && Cong(d, u - v, P) && Cong(m, d * w', P) && Cong(t, b * w, P)
    requires Cong(sum, a + t, P) && Cong(diff, a - t, P)
    ensures Cong(sum, (2 * c) * u, P) && Cong(diff, (2 * c) * v, P)
  {
    hide Cong;
    SumPart(a, c, s, u, v);
    DiffPart(b, c, m, d, u, v, w, w', t);
    JoinParts(a, t, c, u, v, sum, diff);
  }

  lemma SumPart(a: int, c: int, s: int, u: int, v: int)
    requires Cong(a, c * s, P) && Cong(s, u + v, P)
    ensures Cong(a, c * (u + v), P)
  {
    CongMulLeft(c, s, u + v, P);
  }

  lemma DiffPart(b: int, c: int, m: int, d: int, u: int, v: int, w: int, w': int, t: int)
    requires Cong(w * w', 1, P) && Cong(b, c * m, P) && Cong(m, d * w', P) && Cong(d, u - v, P) && Cong(t, b * w, P)
    ensures Cong(t, c * (u - v), P)
  {
    CongMul(d, u - v, w', w', P);
    CongMulLeft(c, m, (u - v) * w', P);
    CongMul(b, c * ((u - v) * w'), w, w, P);
    CongMulLeft(c * (u - v), w * w', 1, P);
    assert c * ((u - v) * w') * w == (c * (u - v)) * (w * w');
  }

  lemma JoinParts(a: int, t: int, c: int, u: int, v: int, sum: int, diff: int)
    requires Cong(a, c * (u + v), P) && Cong(t, c * (u - v), P)
    requires Cong(sum, a + t, P) && Cong(diff, a - t, P)
    ensures Cong(sum, (2 * c) * u, P) && Cong(diff, (2 * c) * v, P)
  {
    CongAdd(a, c * (u + v), t, c * (u - v), P);
    CongSub(a, c * (u + v), t, c * (u - v), P);
    assert c * (u + v) + c * (u - v) == (2 * c) * u;
    assert c * (u + v) - c * (u - v) == (2 * c) * v;
  }

  lemma InverseTwiddles(s: int, s': int, e: nat)
    requires Cong(s * s', 1, P)
    ensures Cong(FPow(s, e) * FPow(s', e), 1, P)
  {
    PowProduct(s, s', e);
    PowCong(s * s', 1, e, P);
    PowOne(e);
    CongMul(FPow(s, e), Pow(s, e), FPow(s', e), Pow(s', e), P);
  }

  lemma BlockInverse(y: seq<Felt>, z: seq<Felt>, s: int, s': int, start: nat, c: int)
    requires |y| == |z| && |y| % 2 == 0 && Cong(s * s', 1, P)
    requires ScaledBy(z, Block(GentlemanSande, y, s', start), c)
    ensures ScaledBy(Block(CooleyTukey, z, s, start), y, 2 * c)
  {
    hide FMul, FAdd, FSub, FPow, Cong, Block;
    var h := |y| / 2;
    var g := Block(GentlemanSande, y, s', start);
    forall k | 0 <= k < |y|
      ensures Cong(Block(CooleyTukey, z, s, start)[k], (2 * c) * y[k], P)
    {
      var j := if k < h then k else k - h;
      InverseTwiddles(s, s', start + j);
      assert Cong(z[j], c * g[j], P) && Cong(z[j + h], c * g[j + h], P);
      ButterflyInverse(y[j], y[j + h], FPow(s, start + j), FPow(s', start + j), c, z[j], z[j + h]);
    }
  }

  lemma ScaledConcat(a: seq<Felt>, b: seq<Felt>, x: seq<Felt>, y: seq<Felt>, c: int)
    requires ScaledBy(a, x, c) && ScaledBy(b, y, c)
    ensures ScaledBy(a + b, x + y, c)
  {
    hide Cong;
  }

  lemma ScaledSplit(z: seq<Felt>, x: seq<Felt>, y: seq<Felt>, c: int)
    requires ScaledBy(z, x + y, c)
    ensures |z| == |x| + |y| && ScaledBy(z[..|x|], x, c) && ScaledBy(z[|x|..], y, c)
  {
    hide Cong;
    forall i | 0 <= i < |x| ensures Cong(z[..|x|][i], c * x[i], P) { assert (x + y)[i] == x[i]; }
    forall i | 0 <= i < |y| ensures Cong(z[|x|..][i], c * y[i], P) { assert (x + y)[|x| + i] == y[i]; }
  }

  /** Pass by pass: the Cooley-Tukey pass undoes the Gentleman-Sande pass up to a factor 2. */
  lemma {:induction false} PassInverse(y: seq<Felt>, z: seq<Felt>, len: nat, s: int, s': int, c: int, blocks: nat)
    requires len > 0 && len % 2 == 0 && Product(|y|, blocks, len) && Cong(s * s', 1, P)
    requires ScaledBy(z, RunningPass(GentlemanSande, y, len, s'), c)
    ensures ScaledBy(RunningPass(CooleyTukey, z, len, s), y, 2 * c)
    decreases blocks
  {
    hide Block, BlockAt, Cong, ScaledBy, RunningPass, Product;
    LastBlock(|y|, blocks, len);
    if blocks == 0 {
      assert y == [];
      NoRunningBlocks(GentlemanSande, len, s');
      NoRunningBlocks(CooleyTukey, len, s);
      EmptyScaled(z, c);
    } else {
      var m := |y| - len;
      var a, b := y[..m], y[m..];
      var ga, gb := RunningPass(GentlemanSande, a, len, s'), Block(GentlemanSande, b, s', m / 2);
      assert y == a + b;
      RunningPassUnfold(GentlemanSande, a, b, len, s');
      ScaledSplit(z, ga, gb, c);
      assert z == z[..m] + z[m..];
      RunningPassUnfold(CooleyTukey, z[..m], z[m..], len, s);
      PassInverse(a, z[..m], len, s, s', c, blocks - 1);
      BlockInverse(b, z[m..], s, s', m / 2, c);
      ScaledConcat(RunningPass(CooleyTukey, z[..m], len, s), Block(CooleyTukey, z[m..], s, m / 2), a, b, 2 * c);
    }
  }

  lemma RunningPassUnfold(kind: Kind, a: seq<Felt>, b: seq<Felt>, len: nat, s: int)
    requires len > 0 && len % 2 == 0 && |b| == len
    ensures RunningPass(kind, a + b, len, s) == RunningPass(kind, a, len, s) + Block(kind, b, s, |a| / 2)
  {
    hide Block, BlockAt;
    assert (a + b)[..|a + b| - len] == a && (a + b)[|a + b| - len..] == b;
  }

  lemma LastBlock(n: nat, blocks: nat, len: nat)
    requires Product(n, blocks, len)
    ensures blocks == 0 ==> n == 0
    ensures blocks > 0 ==> n >= len && Product(n - len, blocks - 1, len)
  {
    if blocks > 0 { assert blocks * len == (blocks - 1) * len + len && (blocks - 1) * len >= 0; }
  }

  lemma EmptyScaled(z: seq<Felt>, c: int)
    requires ScaledBy(z, [], c)
    ensures z == [] && ScaledBy([], [], 2 * c)
  {}

  // ----- all passes

  /** The passes of compute_intt with block lengths len, len/2, ..., 2. */
  ghost function InversePasses(y: seq<Felt>, w: int, len: nat, ratio: nat): (r: seq<Felt>)
    requires PowerOfTwo(len)
    ensures |r| == |y|
    decreases len
  {
    hide RunningPass, FPow;
    if len == 1 then y
    else InversePasses(RunningPass(GentlemanSande, y, len, FPow(w, ratio)), w, len / 2, 2 * ratio)
  }

  /** The passes of compute_forward_ntt with block lengths 2, 4, ..., len. */
  ghost function ForwardPasses(y: seq<Felt>, w: int, len: nat, ratio: nat): (r: seq<Felt>)
    requires PowerOfTwo(len)
    ensures |r| == |y|
    decreases len
  {
    hide RunningPass, FPow;
    if len == 1 then y
    else RunningPass(CooleyTukey, ForwardPasses(y, w, len / 2, 2 * ratio), len, FPow(w, ratio))
  }

  lemma {:induction false} PassesInverse(y: seq<Felt>, z: seq<Felt>, w: int, w': int, len: nat, ratio: nat, c: int)
    requires PowerOfTwo(len) && |y| == ratio * len && Cong(w * w', 1, P)
    requires ScaledBy(z, InversePasses(y, w', len, ratio), c)
    ensures ScaledBy(ForwardPasses(z, w, len, ratio), y, len * c)
    decreases len
  {
    hide RunningPass, ScaledBy, Cong, FPow;
    if len > 1 {
      var g := RunningPass(GentlemanSande, y, len, FPow(w', ratio));
      assert ratio * len == (2 * ratio) * (len / 2);
      PassesInverse(g, z, w, w', len / 2, 2 * ratio, c);
      InverseTwiddles(w, w', ratio);
      PassInverse(y, ForwardPasses(z, w, len / 2, 2 * ratio), len, FPow(w, ratio), FPow(w', ratio), (len / 2) * c,
                  ratio);
      assert 2 * ((len / 2) * c) == len * c;
    } else {
      assert 1 * c == c;
    }
  }

  // ----- the loops

  lemma BlockPair(kind: Kind, x: seq<Felt>, s: int, start: nat, k: nat)
    requires |x| % 2 == 0 && k < |x| / 2
    ensures BlockAt(kind, x, s, start, k) == Upper(kind, x[k], x[k + |x| / 2], FPow(s, start + k))
    ensures BlockAt(kind, x, s, start, k + |x| / 2) == Lower(kind, x[k], x[k + |x| / 2], FPow(s, start + k))
  {
    hide Upper, Lower, FPow;
  }

  method BlockInPlace(kind: Kind, a: array<Felt>, i: nat, len: nat, step: Felt, w0: Felt) returns (w: Felt)
    requires len > 0 && len % 2 == 0 && i % 2 == 0 && i + len <= a.Length && w0 == FPow(step, i / 2)
    modifies a
    ensures a[..] == old(a[..i]) + Block(kind, old(a[i..i + len]), step, i / 2) + old(a[i + len..])
    ensures w == FPow(step, (i + len) / 2)
  {
    hide FMul, FPow, Block, BlockAt, Upper, Lower, BlockProgress;
    ghost var was := a[..];
    var half := len / 2;
    w := w0;
    BlockUntouched(kind, was, i, len, step);
    for j := 0 to half
      invariant w == FPow(step, i / 2 + j) && BlockProgress(kind, was, a[..], i, len, step, j)
    {
      var uIdx, vIdx := i + j, i + j + half;
      var u, v := a[uIdx], a[vIdx];
      PairRuns(kind, was, a[..], i, len, step, j);
      a[uIdx] := Upper(kind, u, v, w);
      a[vIdx] := Lower(kind, u, v, w);
      FPowStep(step, i / 2 + j);
      w := FMul(w, step);
    }
    BlockComplete(kind, was, a[..], i, len, step);
  }

  /** The array once the first j butterflies of the block at i have run. */
  ghost predicate BlockProgress(kind: Kind, was: seq<Felt>, a: seq<Felt>, i: nat, len: nat, s: int, j: nat)
    requires len % 2 == 0 && i + len <= |was| && j <= len / 2
  {
    && |a| == |was|
    && forall p | 0 <= p < |was| ::
         a[p] == if i <= p < i + j || i + len / 2 <= p < i + len / 2 + j
                 then BlockAt(kind, was[i..i + len], s, i / 2, p - i) else was[p]
  }

  lemma BlockUntouched(kind: Kind, was: seq<Felt>, i: nat, len: nat, s: int)
    requires len % 2 == 0 && i + len <= |was|
    ensures BlockProgress(kind, was, was, i, len, s, 0)
  {}

  lemma PairRuns(kind: Kind, was: seq<Felt>, a: seq<Felt>, i: nat, len: nat, s: int, j: nat)
    requires len % 2 == 0 && i + len <= |was| && j < len / 2 && BlockProgress(kind, was, a, i, len, s, j)
    ensures var u, v := i + j, i + j + len / 2; var w := FPow(s, i / 2 + j);
            |a| == |was|
            && BlockProgress(kind, was, a[u := Upper(kind, a[u], a[v], w)][v := Lower(kind, a[u], a[v], w)], i, len,
              s, j + 1)
  {
    hide BlockAt, Upper, Lower, FPow;
    var x := was[i..i + len];
    BlockPair(kind, x, s, i / 2, j);
    assert x[j] == was[i + j] && x[j + len / 2] == was[i + j + len / 2];
  }

  lemma BlockComplete(kind: Kind, was: seq<Felt>, a: seq<Felt>, i: nat, len: nat, s: int)
    requires len % 2 == 0 && i + len <= |was| && BlockProgress(kind, was, a, i, len, s, len / 2)
    ensures a == was[..i] + Block(kind, was[i..i + len], s, i / 2) + was[i + len..]
  {
    hide BlockAt;
    assert a[i..i + len] == Block(kind, was[i..i + len], s, i / 2);
    assert a[..i] == was[..i] && a[i + len..] == was[i + len..];
    assert a == a[..i] + a[i..i + len] + a[i + len..];
  }

  /** The slice once the blocks before position i are done. */
  ghost function Progress(kind: Kind, x: seq<Felt>, i: nat, len: nat, s: int): (r: seq<Felt>)
    requires len > 0 && len % 2 == 0 && i <= |x|
    ensures |r| == |x|
  {
    hide RunningPass;
    RunningPass(kind, x[..i], len, s) + x[i..]
  }

  method RunningPassInPlace(kind: Kind, a: array<Felt>, len: nat, step: Felt, ghost blocks: nat)
    requires len > 0 && len % 2 == 0 && Product(a.Length, blocks, len)
    modifies a
    ensures a[..] == RunningPass(kind, old(a[..]), len, step)
  {
    hide Block, BlockAt, RunningPass, Product, FPow, Progress;
    ghost var x := a[..];
    var n := a.Length;
    var w: Felt := 1;
    FPowZero(step);
    var i := 0;
    ghost var done: nat := 0;
    ProgressEnds(kind, x, len, step);
    while i < n
      invariant done <= blocks && Product(i, done, len) && i <= n && i % 2 == 0
      invariant w == FPow(step, i / 2)
      invariant a[..] == Progress(kind, x, i, len, step)
      decreases n - i
    {
      NextBlock(i, n, done, blocks, len);
      EvenStep(i, len);
      ProgressStep(kind, a[..], x, i, len, step);
      w := BlockInPlace(kind, a, i, len, step, w);
      i := i + len;
      done := done + 1;
    }
  }

  lemma EvenStep(i: nat, len: nat)
    requires i % 2 == 0 && len % 2 == 0
    ensures (i + len) % 2 == 0
  {}

  lemma NoRunningBlocks(kind: Kind, len: nat, s: int)
    requires len > 0 && len % 2 == 0
    ensures RunningPass(kind, [], len, s) == [] && Product(0, 0, len)
  {}

  lemma ProgressEnds(kind: Kind, x: seq<Felt>, len: nat, s: Felt)
    requires len > 0 && len % 2 == 0
    ensures Product(0, 0, len) && Progress(kind, x, 0, len, s) == x
    ensures Progress(kind, x, |x|, len, s) == RunningPass(kind, x, len, s)
  {
    hide RunningPass;
    NoRunningBlocks(kind, len, s);
    assert x[..0] == [] && x[0..] == x && x[..|x|] == x && x[|x|..] == [];
  }

  lemma ProgressStep(kind: Kind, y: seq<Felt>, x: seq<Felt>, i: nat, len: nat, s: Felt)
    requires i + len <= |x| && len > 0 && len % 2 == 0 && y == Progress(kind, x, i, len, s)
    ensures y[..i] + Block(kind, y[i..i + len], s, i / 2) + y[i + len..] == Progress(kind, x, i + len, len, s)
  {
    hide Block, BlockAt, RunningPass;
    var b := x[i..i + len];
    assert x[..i + len] == x[..i] + b;
    RunningPassUnfold(kind, x[..i], b, len, s);
    assert y[..i] == RunningPass(kind, x[..i], len, s);
    assert y[i..i + len] == b;
    assert y[i + len..] == x[i + len..];
  }

  /** compute_intt. */
  method ComputeIntt(a: array<Felt>)
    requires a.Length <= 1 || Length(a.Length)
    modifies a
    ensures a.Length > 1 ==>
              a[..] == Scale(InversePasses(old(a[..]), FInv(Root(a.Length)), a.Length, 1), FInv(FromU64(a.Length)))
    ensures a.Length <= 1 ==> a[..] == old(a[..])
  {
    hide RunningPass, FPow, PowerOfTwo, FMul, Scale, FInv, InversePasses;
    var n := a.Length;
    if n <= 1 { return; }
    ghost var x := a[..];
    var root := GetRootOfUnity(n);
    RootInverse(n);
    NonZero(root, FInv(root));
    var rootInv := Invert(root);
    var len := n;
    ghost var ratio: nat := 1;
    assert PowerOfTwo(len);
    while len >= 2
      invariant len >= 1 && PowerOfTwo(len) && ratio * len == n
      invariant InversePasses(a[..], rootInv, len, ratio) == InversePasses(x, rootInv, n, 1)
      decreases len
    {
      InversePassStep(a[..], rootInv, len, ratio);
      ExactQuotient(n, ratio, len);
      var step := Exp(rootInv, n / len);
      RunningPassInPlace(GentlemanSande, a, len, step, ratio);
      ratio := 2 * ratio;
      len := len / 2;
    }
    NoPasses(a[..], rootInv, ratio);
    LengthInverse(n);
    var nInv := Invert(FromU64(n));
    ghost var y := a[..];
    for i := 0 to n
      invariant forall t | 0 <= t < n :: a[t] == if t < i then FMul(y[t], nInv) else y[t]
    {
      a[i] := FMul(a[i], nInv);
    }
    assert a[..] == Scale(y, nInv);
  }

  lemma InversePassStep(y: seq<Felt>, w: int, len: nat, ratio: nat)
    requires PowerOfTwo(len) && len > 1 && ratio * len == |y|
    ensures len % 2 == 0 && PowerOfTwo(len / 2) && (2 * ratio) * (len / 2) == |y| && Product(|y|, ratio, len)
    ensures InversePasses(y, w, len, ratio) ==
            InversePasses(RunningPass(GentlemanSande, y, len, FPow(w, ratio)), w, len / 2, 2 * ratio)
  {
    hide RunningPass, FPow;
    assert (2 * ratio) * (len / 2) == ratio * len;
  }

  lemma NoPasses(y: seq<Felt>, w: int, ratio: nat)
    ensures PowerOfTwo(1) && InversePasses(y, w, 1, ratio) == y && ForwardPasses(y, w, 1, ratio) == y
  {}

  /** compute_forward_ntt. */
  method ComputeForwardNtt(a: array<Felt>)
    requires a.Length <= 1 || Length(a.Length)
    modifies a
    ensures a.Length > 1 ==> a[..] == ForwardPasses(old(a[..]), Root(a.Length), a.Length, 1)
    ensures a.Length <= 1 ==> a[..] == old(a[..])
  {
    hide RunningPass, FPow, PowerOfTwo, ForwardPasses, InversePasses;
    var n := a.Length;
    if n <= 1 { return; }
    ghost var x := a[..];
    var root := GetRootOfUnity(n);
    var len := 2;
    ghost var ratio: nat := n;
    NoPasses(x, root, n);
    while len <= n
      invariant len > 1 && len % 2 == 0 && PowerOfTwo(len / 2) && ratio * (len / 2) == n && len <= 2 * n
      invariant a[..] == ForwardPasses(x, root, len / 2, ratio)
      decreases 2 * n - len
    {
      ForwardPassStep(x, root, len, ratio, n);
      var step := Exp(root, n / len);
      RunningPassInPlace(CooleyTukey, a, len, step, n / len);
      ratio := ratio / 2;
      len := len * 2;
    }
    LengthAfter(len / 2, n, ratio);
  }

  lemma ForwardPassStep(x: seq<Felt>, w: int, len: nat, ratio: nat, n: nat)
    requires len > 1 && len % 2 == 0 && PowerOfTwo(len / 2) && PowerOfTwo(n) && ratio * (len / 2) == n && len <= n
    ensures PowerOfTwo(len) && Product(n, n / len, len) && ratio / 2 == n / len && n / len >= 0
    ensures ForwardPasses(x, w, len, n / len) ==
            RunningPass(CooleyTukey, ForwardPasses(x, w, len / 2, ratio), len, FPow(w, n / len))
  {
    hide RunningPass, FPow;
    RatioStep(len, n, ratio);
  }

  // ----- the promise

  /** What the two methods compute, as functions of the whole slice. */
  ghost function Intt(x: seq<Felt>): seq<Felt>
    requires Length(|x|)
  {
    if |x| == 1 then x
    else Scale(InversePasses(x, FInv(Root(|x|)), |x|, 1), FInv(FromU64(|x|)))
  }

  ghost function ForwardNtt(x: seq<Felt>): seq<Felt>
    requires Length(|x|)
  {
    if |x| == 1 then x else ForwardPasses(x, Root(|x|), |x|, 1)
  }

  /** compute_forward_ntt undoes compute_intt, for every accepted length. */
  lemma ForwardUndoesIntt(x: seq<Felt>)
    requires Length(|x|)
    ensures |Intt(x)| == |x| && ForwardNtt(Intt(x)) == x
  {
    hide InversePasses, ForwardPasses, PowerOfTwo, FPow, FMul, Cong, Scale, Root, FInv, FromU64;
    var n := |x|;
    LengthPositive(n);
    if n > 1 {
      var w, v := Root(n), FInv(Root(n));
      var c := FInv(FromU64(n));
      var y := InversePasses(x, v, n, 1);
      RootInverse(n);
      LengthInverse(n);
      ScaledByScale(y, c);
      PassesInverse(x, Scale(y, c), w, v, n, 1, c);
      ScaledByOne(ForwardPasses(Scale(y, c), w, n, 1), x, n * c);
    }
  }

  lemma LengthPositive(n: nat)
    requires Length(n)
    ensures n > 0
  {}

  lemma ScaledByScale(y: seq<Felt>, c: Felt)
    ensures ScaledBy(Scale(y, c), y, c)
  {
    hide FMul;
    forall i | 0 <= i < |y|
      ensures Cong(Scale(y, c)[i], c * y[i], P)
    {
      FMulCong(y[i], c);
      assert y[i] * c == c * y[i];
    }
  }

  lemma ScaledByOne(z: seq<Felt>, y: seq<Felt>, c: int)
    requires ScaledBy(z, y, c) && Cong(c, 1, P)
    ensures z == y
  {
    forall i | 0 <= i < |y|
      ensures z[i] == y[i]
    {
      CongMul(c, 1, y[i], y[i], P);
      CongCanonical(z[i], y[i], P);
      CongCanonical(y[i], y[i], P);
    }
  }
}
