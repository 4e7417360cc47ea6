/**
 * The forward transform as evaluation at the roots of X^256 + 1, and multiplication through it:
 * mul_ntt of the source is the product of Z_q[X]/(X^256 + 1).
 */
module MlDsaProduct {
  import opened Congruence
  import opened Evaluation
  import opened BitReversal
  import opened MlDsaScalar
  import opened ZetaTable
  import opened MlDsaNtt
  import opened MlDsaRing

  // ----- the splitting tree

  /** Block b of p, read in blocks of length s. */
  ghost function Cell(p: seq<Zq>, s: nat, b: nat, o: nat): Zq
  {
    var i := b * s + o;
    if i < |p| then p[i] else 0
  }

  ghost function Slice(p: seq<Zq>, s: nat, b: nat): (r: seq<Zq>)
    ensures |r| == s && forall o | 0 <= o < s :: r[o] == Cell(p, s, b, o)
  {
    seq(s, o requires 0 <= o < s => Cell(p, s, b, o))
  }

  /** A block is its lower half followed by its upper half. */
  lemma SliceHalves(p: seq<Zq>, len: nat, b: nat)
    ensures Slice(p, 2 * len, b) == Slice(p, len, 2 * b) + Slice(p, len, 2 * b + 1)
  {
    hide Slice;
    forall o | 0 <= o < 2 * len
      ensures Slice(p, 2 * len, b)[o] == (Slice(p, len, 2 * b) + Slice(p, len, 2 * b + 1))[o]
    {
      HalfIndex(b, len);
    }
  }

  lemma HalfIndex(b: nat, len: nat)
    ensures b * (2 * len) == (2 * b) * len && (2 * b + 1) * len == b * (2 * len) + len
  {}

  lemma StageCells(p: seq<Zq>, len: nat, nb: nat, b: nat, o: nat)
    requires StageSize(len, nb) && |p| == N && b < nb <= 128 && o < len
    ensures var u, v, z := Cell(p, len, 2 * b, o), Cell(p, len, 2 * b + 1, o), Twiddle(false, nb, b);
            && Cell(Stage(false, p, len, nb), len, 2 * b, o) == Low(false, u, v, z)
            && Cell(Stage(false, p, len, nb), len, 2 * b + 1, o) == High(false, u, v, z)
  {
    hide Low, High, Twiddle, Stage, StageAt, StageSize;
    StageProduct(len, nb);
    RowBelow2(b, o, nb, len);
    EvenRow(b, o, len);
    var j := (2 * b) * len + o;
    assert j + len == (2 * b + 1) * len + o;
    DivModUnique(j, 2 * b, o, len);
    StagePair(false, p, len, nb, j);
  }

  lemma ForwardButterfly(u: Zq, v: Zq, nb: nat, b: nat)
    requires b < nb <= 128
    ensures Cong(Low(false, u, v, Twiddle(false, nb, b)), u + PlainZeta(nb + b) * v, Q)
    ensures Cong(High(false, u, v, Twiddle(false, nb, b)), u + -PlainZeta(nb + b) * v, Q)
  {
    hide SMul, SAdd, SSub, Zeta, PlainZeta;
    var t := SMul(v, Zeta(nb + b));
    var z := PlainZeta(nb + b);
    TwiddleProduct(v, nb + b);
    assert v * z == z * v && -z * v == -(z * v);
    SAddCong(u, t);
    CongAdd(u, u, t, z * v, Q);
    SSubCong(u, t);
    CongSub(u, u, t, z * v, Q);
  }

  /** Reducing a block modulo X^len - z and modulo X^len + z. */
  lemma SplitEval(p: seq<Zq>, len: nat, nb: nat, b: nat, y: int)
    requires StageSize(len, nb) && |p| == N && b < nb <= 128
    ensures Cong(Pow(y, len), PlainZeta(nb + b), Q) ==>
              Cong(Eval(Slice(Stage(false, p, len, nb), len, 2 * b), y), Eval(Slice(p, 2 * len, b), y), Q)
    ensures Cong(Pow(y, len), -PlainZeta(nb + b), Q) ==>
              Cong(Eval(Slice(Stage(false, p, len, nb), len, 2 * b + 1), y), Eval(Slice(p, 2 * len, b), y), Q)
  {
    hide Low, High, Twiddle, Stage, StageSize, Slice, Cell, PlainZeta, Eval, Pow, Cong;
    var s := Stage(false, p, len, nb);
    var lo, hi := Slice(p, len, 2 * b), Slice(p, len, 2 * b + 1);
    var a, c := Slice(s, len, 2 * b), Slice(s, len, 2 * b + 1);
    var z := PlainZeta(nb + b);
    forall o | 0 <= o < len
      ensures Cong(a[o], lo[o] + z * hi[o], Q) && Cong(c[o], lo[o] + -z * hi[o], Q)
    {
      StageCells(p, len, nb, b, o);
      ForwardButterfly(lo[o], hi[o], nb, b);
    }
    EvalLinear(lo, hi, z, a, y, Q);
    EvalLinear(lo, hi, -z, c, y, Q);
    SliceHalves(p, len, b);
    EvalConcat(lo, hi, y);
    if Cong(Pow(y, len), z, Q) { ReducePower(Eval(a, y), Eval(lo, y), Eval(hi, y), Pow(y, len), z); }
    if Cong(Pow(y, len), -z, Q) { ReducePower(Eval(c, y), Eval(lo, y), Eval(hi, y), Pow(y, len), -z); }
  }

  lemma ReducePower(e: int, l: int, h: int, x: int, z: int)
    requires Cong(e, l + z * h, Q) && Cong(x, z, Q)
    ensures Cong(e, l + x * h, Q)
  {
    CongMul(x, z, h, h, Q);
    CongAdd(l, l, x * h, z * h, Q);
  }

  /** Length and number of the blocks after k stages. */
  ghost function Size(k: nat): nat { if k == 0 then 256 else Len(8 - (if k <= 8 then k else 8)) }

  ghost function Nodes(k: nat): nat { if k == 0 then 1 else 2 * Blocks(8 - (if k <= 8 then k else 8)) }

  lemma Halving(k: nat)
    requires 1 <= k <= 8
    ensures Size(k - 1) == 2 * Size(k) && Nodes(k) == 2 * Nodes(k - 1) && Nodes(k - 1) <= 128 && Nodes(k) <= 256
    ensures Size(k) == Len(8 - k) && Nodes(k - 1) == Blocks(8 - k) && StageSize(Size(k), Nodes(k - 1))
  {}

  /** The parent's modulus is the square of the child's. */
  lemma ParentModulus(k: nat, b: nat, y: int)
    requires 1 <= k <= 8 && b < Nodes(k) <= 256 && Cong(Pow(y, Size(k)), Modulus(Nodes(k) + b), Q)
    ensures b / 2 < Nodes(k - 1) <= 128
    ensures Cong(Pow(y, Size(k)), if b % 2
            == 0 then PlainZeta(Nodes(k - 1) + b / 2) else -PlainZeta(Nodes(k - 1) + b / 2), Q)
    ensures Cong(Pow(y, Size(k - 1)), Modulus(Nodes(k - 1) + b / 2), Q)
  {
    hide PlainZeta, Pow;
    Halving(k);
    var n := Nodes(k - 1) + b / 2;
    var s := Size(k);
    assert (Nodes(k) + b) / 2 == n && (Nodes(k) + b) % 2 == b % 2;
    PowAdd(y, s, s);
    var z := PlainZeta(n);
    ZetaSquares(n);
    var m := if b % 2 == 0 then z else -z;
    CongMul(Pow(y, s), m, Pow(y, s), m, Q);
    assert m * m == z * z;
  }

  /** After k stages, block b agrees with p at every root of its modulus. */
  lemma {:induction false} NodeEval(p: seq<Zq>, k: nat, b: nat, y: int)
    requires |p| == N && k <= 8 && b < Nodes(k) <= 256 && Cong(Pow(y, Size(k)), Modulus(Nodes(k) + b), Q)
    ensures Cong(Eval(Slice(Forward(p, k), Size(k), b), y), Eval(p, y), Q)
    decreases k
  {
    hide Stage, Forward, Slice, Eval, Pow, Cong, Modulus, PlainZeta, StageSize;
    if k == 0 {
      WholeSlice(p);
    } else {
      Halving(k);
      ParentModulus(k, b, y);
      NodeEval(p, k - 1, b / 2, y);
      ForwardStep(p, k - 1);
      SplitEval(Forward(p, k - 1), Size(k), Nodes(k - 1), b / 2, y);
      CongTrans(Eval(Slice(Forward(p, k), Size(k), b), y),
                Eval(Slice(Forward(p, k - 1), Size(k - 1), b / 2), y), Eval(p, y));
    }
  }

  lemma CongTrans(a: int, b: int, c: int)
    requires Cong(a, b, Q) && Cong(b, c, Q)
    ensures Cong(a, c, Q)
  {}

  lemma WholeSlice(p: seq<Zq>)
    requires |p| == N
    ensures Forward(p, 0) == p && Slice(p, 256, 0) == p
    ensures forall y :: Cong(Eval(p, y), Eval(p, y), Q)
  {}

  lemma {:induction false} RootOfModulus(k: nat, b: nat, y: int)
    requires k <= 8 && b < Nodes(k) <= 256 && Cong(Pow(y, Size(k)), Modulus(Nodes(k) + b), Q)
    ensures Cong(Pow(y, N), -1, Q)
    decreases k
  {
    hide Pow, Cong, PlainZeta;
    if k > 0 {
      Halving(k);
      ParentModulus(k, b, y);
      RootOfModulus(k - 1, b / 2, y);
    }
  }

  /** The i-th root of X^256 + 1, in the order the transform visits them. */
  ghost function LeafRoot(i: nat): int
    requires i < N
  {
    hide Modulus;
    Modulus(N + i)
  }

  lemma LeafPower(i: nat)
    requires i < N
    ensures Cong(Pow(LeafRoot(i), Size(8)), Modulus(Nodes(8) + i), Q)
  {
    hide Modulus;
    assert Size(8) == 1 && Nodes(8) == 256;
    assert Pow(LeafRoot(i), 1) == LeafRoot(i) * Pow(LeafRoot(i), 0);
  }

  /** Each leaf is a root of X^256 + 1. */
  lemma LeafRootNegacyclic(i: nat)
    requires i < N
    ensures Cong(Pow(LeafRoot(i), N), -1, Q)
  {
    hide Modulus, Pow, Cong, LeafRoot;
    LeafPower(i);
    RootOfModulus(8, i, LeafRoot(i));
  }

  /** ntt(p)[i] is the value of p at the i-th root. */
  lemma NttAtLeaf(p: seq<Zq>, i: nat)
    requires |p| == N && i < N
    ensures Cong(Ntt(p)[i], Eval(p, LeafRoot(i)), Q)
  {
    hide Modulus, Pow, Forward, LeafRoot, Cong;
    LeafPower(i);
    NodeEval(p, 8, i, LeafRoot(i));
    LeafSlice(Ntt(p), i, LeafRoot(i));
  }

  lemma PlainPower(k: nat)
    requires k < 256
    ensures Cong(PlainZeta(k), Pow(1753, Rev(k, 256)), Q)
  {
    hide Zeta, Pow, Rev, Cong;
    ZetaPower(k);
    CancelMontgomery(Zeta(k), Pow(1753, Rev(k, 256)));
  }

  /** The i-th root is the odd power of 1753 with exponent 2 * rev(i) + 1. */
  lemma LeafIsPower(i: nat)
    requires i < N
    ensures Cong(LeafRoot(i), Pow(1753, 2 * Rev(i, 256) + 1), Q)
  {
    hide PlainZeta, Pow, Rev;
    var j := i / 2;
    var k := 128 + j;
    RevUnfold(i, 256);
    RevFromTop(k, 256);
    PlainPower(k);
    assert N + i == 2 * k + i % 2;
    if i % 2 == 1 {
      HalfTurnOn(Rev(k, 256));
      Negated(PlainZeta(k), Pow(1753, Rev(k, 256)), Pow(1753, 256 + Rev(k, 256)));
    }
  }

  lemma Negated(z: int, x: int, y: int)
    requires Cong(z, x, Q) && Cong(y, -x, Q)
    ensures Cong(-z, y, Q)
  {
    CongMulLeft(-1, z, x, Q);
  }

  /** ntt(p)[i] is the value of p at 1753^(2 * rev(i) + 1), rev reversing eight bits. */
  lemma NttEvaluates(p: seq<Zq>, i: nat)
    requires |p| == N && i < N
    ensures Cong(Ntt(p)[i], Eval(p, Pow(1753, 2 * Rev(i, 256) + 1)), Q)
  {
    hide Pow, Rev, Ntt, LeafRoot, Eval;
    NttAtLeaf(p, i);
    LeafIsPower(i);
    EvalCong(p, p, LeafRoot(i), Pow(1753, 2 * Rev(i, 256) + 1), Q);
  }

  lemma LeafSlice(s: seq<Zq>, i: nat, y: int)
    requires |s| == N && i < N
    ensures Size(8) == 1 && Eval(Slice(s, 1, i), y) == s[i]
  {
    var t := Slice(s, 1, i);
    assert t[0] == s[i] && t[1..] == [];
  }

  // ----- the ring product

  /** Coefficient k of X^i * b modulo X^256 + 1. */
  ghost function Rotated(b: seq<Zq>, i: nat, k: nat): int
    requires |b| == N && i <= N && k < N
  {
    var v: int := if i <= k then b[k - i] else b[N + k - i];
    if i <= k then v else -v
  }

  /** Coefficient k of (a[0] + a[1] X + ... + a[n-1] X^(n-1)) * b modulo X^256 + 1. */
  ghost function ProductCoeff(a: seq<Zq>, b: seq<Zq>, k: nat, n: nat): int
    requires |a| == N && |b| == N && k < N && n <= N
  {
    if n == 0 then 0 else ProductCoeff(a, b, k, n - 1) + a[n - 1] * Rotated(b, n - 1, k)
  }

  /** The product of a and b in Z_q[X]/(X^256 + 1). */
  ghost function RingMul(a: seq<Zq>, b: seq<Zq>): (r: seq<Zq>)
    requires |a| == N && |b| == N
    ensures |r| == N && forall k | 0 <= k < N :: r[k] == ProductCoeff(a, b, k, N) % Q
  {
    seq(N, k requires 0 <= k < N => (ProductCoeff(a, b, k, N) % Q) as Zq)
  }

  ghost function Rotation(b: seq<Zq>, i: nat): (r: seq<int>)
    requires |b| == N && i <= N
    ensures |r| == N && forall k | 0 <= k < N :: r[k] == Rotated(b, i, k)
  {
    seq(N, k requires 0 <= k < N => Rotated(b, i, k))
  }

  /** Rotating once more multiplies the value at a root of X^256 + 1 by that root. */
  lemma RotateOnce(b: seq<Zq>, i: nat, x: int)
    requires |b| == N && i < N && Cong(Pow(x, N), -1, Q)
    ensures Cong(Eval(Rotation(b, i + 1), x), x * Eval(Rotation(b, i), x), Q)
  {
    hide Rotation, Pow, Cong;
    var r, s := Rotation(b, i), Rotation(b, i + 1);
    var body, last := r[..N - 1], r[N - 1];
    assert r == body + [last];
    EvalSnoc(body, last, x);
    assert s[1..] == body;
    assert s[0] == -last;
    assert Eval(s, x) == s[0] + x * Eval(s[1..], x);
    PowStep(x);
    WrapAround(Eval(s, x), Eval(r, x), Eval(body, x), last, x, Pow(x, N - 1), Pow(x, N));
  }

  lemma PowStep(x: int)
    ensures Pow(x, N) == x * Pow(x, N - 1)
  {}

  lemma WrapAround(es: int, er: int, eb: int, last: int, x: int, p: int, xn: int)
    requires es == -last + x * eb && er == eb + last * p && xn == x * p && Cong(xn, -1, Q)
    ensures Cong(es, x * er, Q)
  {
    CongMulLeft(last, xn, -1, Q);
    CongAdd(x * eb, x * eb, last * xn, last * -1, Q);
    assert x * (eb + last * p) == x * eb + last * (x * p);
  }

  lemma {:induction false} RotationValue(b: seq<Zq>, i: nat, x: int)
    requires |b| == N && i <= N && Cong(Pow(x, N), -1, Q)
    ensures Cong(Eval(Rotation(b, i), x), Pow(x, i) * Eval(b, x), Q)
    decreases i
  {
    hide Rotation, Rotated, Cong, Eval;
    if i == 0 {
      NoRotation(b, x);
    } else {
      RotationValue(b, i - 1, x);
      RotateOnce(b, i - 1, x);
      ScaleStep(Eval(Rotation(b, i), x), Eval(Rotation(b, i - 1), x), x, Pow(x, i - 1), Eval(b, x));
    }
  }

  lemma NoRotation(b: seq<Zq>, x: int)
    requires |b| == N
    ensures Cong(Eval(Rotation(b, 0), x), Pow(x, 0) * Eval(b, x), Q)
  {
    assert Rotation(b, 0) == b;
  }

  lemma ScaleStep(a: int, r: int, x: int, p: int, e: int)
    requires Cong(a, x * r, Q) && Cong(r, p * e, Q)
    ensures Cong(a, (x * p) * e, Q)
  {
    CongMulLeft(x, r, p * e, Q);
    MulAssoc(x, p, e);
  }

  ghost function PartialProduct(a: seq<Zq>, b: seq<Zq>, n: nat): (r: seq<int>)
    requires |a| == N && |b| == N && n <= N
    ensures |r| == N && forall k | 0 <= k < N :: r[k] == ProductCoeff(a, b, k, n)
  {
    seq(N, k requires 0 <= k < N => ProductCoeff(a, b, k, n))
  }

  /** At a root of X^256 + 1 the product of the first n terms of a with b has the product value. */
  lemma {:induction false} PartialProductValue(a: seq<Zq>, b: seq<Zq>, n: nat, x: int)
    requires |a| == N && |b| == N && n <= N && Cong(Pow(x, N), -1, Q)
    ensures Cong(Eval(PartialProduct(a, b, n), x), Eval(a[..n], x) * Eval(b, x), Q)
    decreases n
  {
    hide Rotation, Rotated, PartialProduct, Cong, Eval, Pow;
    var c := PartialProduct(a, b, n);
    if n == 0 {
      NoTerms(a, b, x);
    } else {
      var d, r := PartialProduct(a, b, n - 1), Rotation(b, n - 1);
      var t := a[n - 1];
      PartialProductValue(a, b, n - 1, x);
      RotationValue(b, n - 1, x);
      forall k | 0 <= k < N
        ensures Cong(c[k], d[k] + t * r[k], Q)
      {
        Reflexive(c[k], d[k] + t * r[k]);
      }
      EvalLinear(d, r, t, c, x, Q);
      assert a[..n] == a[..n - 1] + [t];
      EvalSnoc(a[..n - 1], t, x);
      AddTerm(Eval(c, x), Eval(d, x), Eval(r, x), t, Eval(a[..n - 1], x), Pow(x, n - 1), Eval(b, x));
    }
  }

  lemma Reflexive(a: int, b: int)
    requires a == b
    ensures Cong(a, b, Q)
  {}

  lemma NoTerms(a: seq<Zq>, b: seq<Zq>, x: int)
    requires |a| == N && |b| == N
    ensures Cong(Eval(PartialProduct(a, b, 0), x), Eval(a[..0], x) * Eval(b, x), Q)
  {
    EvalZeros(PartialProduct(a, b, 0), x);
    assert Eval(a[..0], x) == 0;
  }

  lemma AddTerm(ec: int, ed: int, er: int, t: int, ea: int, p: int, eb: int)
    requires Cong(ec, ed + t * er, Q) && Cong(ed, ea * eb, Q) && Cong(er, p * eb, Q)
    ensures Cong(ec, (ea + t * p) * eb, Q)
  {
    CongMulLeft(t, er, p * eb, Q);
    CongAdd(ed, ea * eb, t * er, t * (p * eb), Q);
    MulAssoc(t, p, eb);
    assert ea * eb + (t * p) * eb == (ea + t * p) * eb;
  }

  /** The ring product evaluates to the product at every root of X^256 + 1. */
  lemma RingMulValue(a: seq<Zq>, b: seq<Zq>, x: int)
    requires |a| == N && |b| == N && Cong(Pow(x, N), -1, Q)
    ensures Cong(Eval(RingMul(a, b), x), Eval(a, x) * Eval(b, x), Q)
  {
    hide RingMul, PartialProduct, ProductCoeff, Eval, Pow;
    var c := RingMul(a, b);
    forall k | 0 <= k < N
      ensures Cong(c[k], PartialProduct(a, b, N)[k], Q)
    {
      CongMod(ProductCoeff(a, b, k, N), Q);
    }
    EvalCong(c, PartialProduct(a, b, N), x, x, Q);
    PartialProductValue(a, b, N, x);
    assert a[..N] == a;
  }

  // ----- multiplication through the transform

  /** 2^64 mod q, the factor that undoes two Montgomery divisions. */
  const MONT_SQUARED: Zq := 2_365_951

  function PointwiseAt(a: Zq, b: Zq): Zq
  {
    hide SMul;
    SMul(SMul(a, b), MONT_SQUARED)
  }

  lemma PointwiseValue(a: Zq, b: Zq)
    ensures (MONT * MONT) % Q == MONT_SQUARED
    ensures Cong(PointwiseAt(a, b), a * b, Q)
  {
    hide SMul, Cong;
    SMulCong(a, b);
    SMulCong(SMul(a, b), MONT_SQUARED);
    CancelSquared(SMul(a, b), a * b, PointwiseAt(a, b));
  }

  lemma CancelSquared(m: int, p: int, r: int)
    requires Cong(m, p * MONT_INV, Q) && Cong(r, m * MONT_SQUARED * MONT_INV, Q)
    ensures Cong(r, p, Q)
  {
    CongMul(m, p * MONT_INV, MONT_SQUARED * MONT_INV, MONT_SQUARED * MONT_INV, Q);
    assert MONT_INV * MONT_SQUARED * MONT_INV == 1 + 19_289_125_090_622 * Q;
    CongIntro(MONT_INV * MONT_SQUARED * MONT_INV, 1, 19_289_125_090_622, Q);
    CongMulLeft(p, MONT_INV * MONT_SQUARED * MONT_INV, 1, Q);
    assert p * MONT_INV * (MONT_SQUARED * MONT_INV) == p * (MONT_INV * MONT_SQUARED * MONT_INV);
    assert m * MONT_SQUARED * MONT_INV == m * (MONT_SQUARED * MONT_INV);
  }

  /** mul_pointwise_ntt. */
  function Pointwise(a: seq<Zq>, b: seq<Zq>): (r: seq<Zq>)
    requires |a| == N && |b| == N
    ensures |r| == N && forall i | 0 <= i < N :: r[i] == PointwiseAt(a[i], b[i])
  {
    hide PointwiseAt;
    seq(N, i requires 0 <= i < N => PointwiseAt(a[i], b[i]))
  }

  /** The transform of a ring product is the pointwise product of the transforms. */
  lemma NttOfProduct(a: seq<Zq>, b: seq<Zq>)
    requires |a| == N && |b| == N
    ensures Ntt(RingMul(a, b)) == Pointwise(Ntt(a), Ntt(b))
  {
    hide Ntt, Pointwise, RingMul, LeafRoot, PointwiseAt, Cong;
    forall i | 0 <= i < N
      ensures Ntt(RingMul(a, b))[i] == Pointwise(Ntt(a), Ntt(b))[i]
    {
      NttOfProductAt(a, b, i);
    }
  }

  lemma NttOfProductAt(a: seq<Zq>, b: seq<Zq>, i: nat)
    requires |a| == N && |b| == N && i < N
    ensures Ntt(RingMul(a, b))[i] == PointwiseAt(Ntt(a)[i], Ntt(b)[i])
  {
    hide Ntt, RingMul, LeafRoot, PointwiseAt, Eval, Pow;
    var x := LeafRoot(i);
    NttAtLeaf(a, i);
    NttAtLeaf(b, i);
    NttAtLeaf(RingMul(a, b), i);
    LeafRootNegacyclic(i);
    RingMulValue(a, b, x);
    PointwiseValue(Ntt(a)[i], Ntt(b)[i]);
    CongMul(Ntt(a)[i], Eval(a, x), Ntt(b)[i], Eval(b, x), Q);
    ZqUnique(Ntt(RingMul(a, b))[i], PointwiseAt(Ntt(a)[i], Ntt(b)[i]));
  }

  /** mul_ntt: transform both, multiply pointwise, transform back. */
  method MulNtt(a: array<Zq>, b: array<Zq>, seedA: nat, seedB: nat, seedC: nat) returns (c: array<Zq>)
    requires a.Length == N && b.Length == N
    ensures fresh(c) && c.Length == N && c[..] == RingMul(a[..], b[..])
  {
    hide Ntt, Intt, RingMul, Pointwise, PointwiseAt, SMul;
    var aNtt := new Zq[N](i requires 0 <= i < N reads a => a[i]);
    var bNtt := new Zq[N](i requires 0 <= i < N reads b => b[i]);
    assert aNtt[..] == a[..] && bNtt[..] == b[..];
    NttInPlace(aNtt, seedA);
    NttInPlace(bNtt, seedB);
    c := new Zq[N](_ => 0);
    for i := 0 to N
      invariant aNtt[..] == Ntt(a[..]) && bNtt[..] == Ntt(b[..])
      invariant forall k | 0 <= k < i :: c[k] == PointwiseAt(aNtt[k], bNtt[k])
    {
      c[i] := PointwiseAt(aNtt[i], bNtt[i]);
    }
    assert c[..] == Pointwise(aNtt[..], bNtt[..]);
    NttOfProduct(a[..], b[..]);
    InttUndoesNtt(RingMul(a[..], b[..]));
    InttInPlace(c, seedC);
  }
}
