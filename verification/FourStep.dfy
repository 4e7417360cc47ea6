/**
 * The four-step transforms of solomon-zk/src/ntt.rs: columns, twiddles, rows and transposes of
 * an n1 x n2 matrix, proved to return exactly what the radix-2 transforms return.
 */
module FourStep {
  import opened Congruence
  import opened Evaluation
  import opened Goldilocks
  import opened Fourier
  import opened RadixTwo
  import opened MatrixLayout

  // ----- the identity

  /** The evaluations at z of the columns of x. */
  ghost function ColumnEvals(x: seq<Felt>, width: nat, height: nat, z: int): (r: seq<int>)
    ensures |r| == width
    ensures forall c | 0 <= c < width :: r[c] == Eval(Column(x, width, height, c), z)
  {
    seq(width, c requires 0 <= c < width => Eval(Column(x, width, height, c), z))
  }

  /** Splitting off the first row: every column starts with its entry in that row. */
  lemma ColumnStep(x: seq<Felt>, width: nat, height: nat, c: nat, z: int)
    requires |x| == (height + 1) * width && c < width && width <= |x|
    ensures Eval(Column(x, width, height + 1, c), z) == x[c] + z * Eval(Column(x[width..], width, height, c), z)
  {
    var a, b := Column(x, width, height + 1, c), Column(x[width..], width, height, c);
    InBounds(0, c, height + 1, width);
    forall r | 0 <= r < height
      ensures a[1..][r] == b[r]
    {
      assert a[1..][r] == Entry(x, width, r + 1, c);
      assert (r + 1) * width == r * width + width;
      InBounds(r + 1, c, height + 1, width);
    }
    assert a[1..] == b;
    assert a[0] == Entry(x, width, 0, c) == x[c];
  }

  /** Evaluating a matrix row-major is evaluating its columns at y^width, then across the columns. */
  lemma {:induction false} EvalByColumns(x: seq<Felt>, width: nat, height: nat, y: int)
    requires |x| == height * width && width > 0
    ensures Cong(Eval(x, y), Eval(ColumnEvals(x, width, height, Pow(y, width)), y), P)
    decreases height
  {
    hide Cong, Pow;
    var z := Pow(y, width);
    var e := ColumnEvals(x, width, height, z);
    if height == 0 {
      EmptyMatrix(x, width, e, y, z);
    } else {
      assert height * width == (height - 1) * width + width && (height - 1) * width >= 0;
      var top, rest := x[..width], x[width..];
      var f := ColumnEvals(rest, width, height - 1, z);
      EvalByColumns(rest, width, height - 1, y);
      EvalConcat(top, rest, y);
      assert x == top + rest;
      forall c | 0 <= c < width
        ensures e[c] == top[c] + z * f[c]
      {
        hide Eval, Column;
        ColumnStep(x, width, height - 1, c, z);
      }
      JoinRows(top, f, z, e, y, Eval(rest, y));
    }
  }

  lemma EmptyMatrix(x: seq<Felt>, width: nat, e: seq<int>, y: int, z: int)
    requires x == [] && e == ColumnEvals(x, width, 0, z)
    ensures Cong(Eval(x, y), Eval(e, y), P)
  {
    forall c | 0 <= c < |e| ensures e[c] == 0 { assert Column(x, width, 0, c) == []; }
    EvalZeros(e, y);
  }

  lemma JoinRows(top: seq<int>, f: seq<int>, z: int, e: seq<int>, y: int, er: int)
    requires |top| == |f| == |e|
    requires forall c | 0 <= c < |e| :: e[c] == top[c] + z * f[c]
    requires Cong(er, Eval(f, y), P)
    ensures Cong(Eval(top, y) + z * er, Eval(e, y), P)
  {
    hide Eval, Cong;
    LinearRows(top, f, z, e, y);
    JoinValues(Eval(top, y), Eval(f, y), Eval(e, y), z, er);
  }

  lemma LinearRows(top: seq<int>, f: seq<int>, z: int, e: seq<int>, y: int)
    requires |top| == |f| == |e|
    requires forall c | 0 <= c < |e| :: e[c] == top[c] + z * f[c]
    ensures Cong(Eval(e, y), Eval(top, y) + z * Eval(f, y), P)
  {
    hide Eval, Cong;
    forall c | 0 <= c < |e| ensures Cong(e[c], top[c] + z * f[c], P) { EqualsCong(e[c], top[c] + z * f[c]); }
    EvalLinear(top, f, z, e, y, P);
  }

  lemma EqualsCong(a: int, b: int)
    requires a == b
    ensures Cong(a, b, P)
  {}

  lemma JoinValues(t: int, f: int, e: int, z: int, er: int)
    requires Cong(e, t + z * f, P) && Cong(er, f, P)
    ensures Cong(t + z * er, e, P)
  {
    CongMulLeft(z, er, f, P);
    CongAdd(t, t, z * er, z * f, P);
  }

  /** Exponents: with y = w^(k2*n1+k1), y^n2 is w1^k1 and w^k1 * w2^k2 is y. */
  lemma FourStepExponents(w: int, w1: int, w2: int, n1: nat, n2: nat, k1: nat, k2: nat)
    requires Cong(w1, Pow(w, n2), P) && Cong(w2, Pow(w, n1), P) && Cong(Pow(w, n1 * n2), 1, P)
    ensures k2 * n1 + k1 >= 0
    ensures Cong(Pow(Pow(w, k2 * n1 + k1), n2), Pow(w1, k1), P)
    ensures Cong(Pow(w, k1) * Pow(w2, k2), Pow(w, k2 * n1 + k1), P)
  {
    hide Pow;
    PowAdd(w, k2 * n1, k1);
    RowExponent(w, w2, n1, k2);
    CongMulLeft(Pow(w, k1), Pow(w2, k2), Pow(w, k2 * n1), P);
    assert Pow(w, k1) * Pow(w, k2 * n1) == Pow(w, k2 * n1) * Pow(w, k1);
    PowProduct(Pow(w, k2 * n1), Pow(w, k1), n2);
    FullTurns(w, n1, n2, k2);
    ColumnExponent(w, w1, n2, k1);
    CongMul(Pow(Pow(w, k2 * n1), n2), 1, Pow(Pow(w, k1), n2), Pow(w1, k1), P);
  }

  lemma RowExponent(w: int, w2: int, n1: nat, k2: nat)
    requires Cong(w2, Pow(w, n1), P)
    ensures k2 * n1 >= 0 && Cong(Pow(w2, k2), Pow(w, k2 * n1), P)
  {
    PowMul(w, n1, k2);
    assert k2 * n1 == n1 * k2;
    PowCong(w2, Pow(w, n1), k2, P);
  }

  lemma ColumnExponent(w: int, w1: int, n2: nat, k1: nat)
    requires Cong(w1, Pow(w, n2), P)
    ensures Cong(Pow(Pow(w, k1), n2), Pow(w1, k1), P)
  {
    PowMul(w, k1, n2);
    PowMul(w, n2, k1);
    assert k1 * n2 == n2 * k1;
    PowCong(w1, Pow(w, n2), k1, P);
  }

  lemma FullTurns(w: int, n1: nat, n2: nat, k2: nat)
    requires Cong(Pow(w, n1 * n2), 1, P)
    ensures Cong(Pow(Pow(w, k2 * n1), n2), 1, P)
  {
    PowMul(w, k2 * n1, n2);
    assert (k2 * n1) * n2 == (n1 * n2) * k2;
    PowPeriod(w, n1 * n2, k2, P);
  }

  /**
   * Row k1 of the middle matrix: column transforms scaled by s1, times the twiddles w^(k1*c).
   * Its transform at w2^k2 is s1 times the full transform at k2 * n1 + k1.
   */
  lemma FourStepAt(x: seq<Felt>, n1: nat, n2: nat, w: int, w1: int, w2: int, s1: int,
                   k1: nat, k2: nat, row: seq<Felt>)
    requires |x| == n1 * n2 && n2 > 0 && |row| == n2
    requires Cong(w1, Pow(w, n2), P) && Cong(w2, Pow(w, n1), P) && Cong(Pow(w, n1 * n2), 1, P)
    requires forall c | 0 <= c < n2 ::
               Cong(row[c], s1 * Pow(Pow(w, k1), c) * Eval(Column(x, n2, n1, c), Pow(w1, k1)), P)
    ensures Cong(Eval(row, Pow(w2, k2)), s1 * Eval(x, Pow(w, k2 * n1 + k1)), P)
  {
    hide Cong, Pow, Eval, Column;
    var y := Pow(w, k2 * n1 + k1);
    var z := Pow(y, n2);
    var e := ColumnEvals(x, n2, n1, Pow(w1, k1));
    var f := ColumnEvals(x, n2, n1, z);
    FourStepExponents(w, w1, w2, n1, n2, k1, k2);
    EvalTwist(e, row, Pow(w, k1), s1, Pow(w2, k2), P);
    forall c | 0 <= c < n2
      ensures Cong(e[c], f[c], P)
    {
      SameClass(Column(x, n2, n1, c), Pow(w1, k1), z);
    }
    EvalCong(e, f, Pow(w, k1) * Pow(w2, k2), y, P);
    EvalByColumns(x, n2, n1, y);
    Chain(Eval(row, Pow(w2, k2)), s1, Eval(e, Pow(w, k1) * Pow(w2, k2)), Eval(f, y), Eval(x, y));
  }

  lemma SameClass(a: seq<int>, x: int, y: int)
    requires Cong(y, x, P)
    ensures Cong(Eval(a, x), Eval(a, y), P)
  {
    EvalCong(a, a, x, y, P);
  }

  lemma Chain(a: int, s: int, e: int, f: int, x: int)
    requires Cong(a, s * e, P) && Cong(e, f, P) && Cong(x, f, P)
    ensures Cong(a, s * x, P)
  {
    CongMulLeft(s, e, x, P);
  }

  // ----- the roots of the two smaller lengths

  lemma SubRoot(n: nat, n1: nat, n2: nat)
    requires n == n1 * n2 && Length(n) && PowerOfTwo(n1) && PowerOfTwo(n2)
    ensures Length(n1) && Cong(Root(n1), Pow(Root(n), n2), P)
    ensures Cong(FInv(Root(n1)), Pow(FInv(Root(n)), n2), P)
  {
    FactorBounds(n, n1, n2);
    hide PowerOfTwo, Root, FInv, Pow, Cong;
    SubExponent(n, n1, n2);
    RootPower(n, n1, n2);
    InverseOfPower(Root(n), n2, Root(n1));
  }

  lemma FactorBounds(n: nat, n1: nat, n2: nat)
    requires n == n1 * n2 && PowerOfTwo(n1) && PowerOfTwo(n2)
    ensures 0 < n1 <= n && 0 < n2 <= n
  {
    FactorsBelow(n1, n2);
  }

  lemma FactorsBelow(a: nat, b: nat)
    ensures a > 0 && b > 0 ==> a <= a * b && b <= a * b
  {}

  lemma RootPower(n: nat, n1: nat, n2: nat)
    requires n > 0 && n1 > 0 && ((P - 1) / n) * n2 == (P - 1) / n1
    ensures Cong(Root(n1), Pow(Root(n), n2), P)
  {
    var c: nat := (P - 1) / n;
    assert Root(n) == FPow(7, c);
    var d: nat := c * n2;
    assert Root(n1) == FPow(7, d);
    PowCong(FPow(7, c), Pow(7, c), n2, P);
    PowMul(7, c, n2);
  }

  /** Fermat inversion commutes with powers. */
  lemma InverseOfPower(a: Felt, k: nat, b: Felt)
    requires Cong(b, Pow(a, k), P)
    ensures Cong(FInv(b), Pow(FInv(a), k), P)
  {
    var d: nat := P - 2;
    PowCong(FInv(a), Pow(a, d), k, P);
    PowMul(a, d, k);
    PowMul(a, k, d);
    assert d * k == k * d;
    PowCong(b, Pow(a, k), d, P);
  }

  lemma SubExponent(n: nat, n1: nat, n2: nat)
    requires n == n1 * n2 && Length(n) && n > 0 && n1 > 0 && n2 > 0
    ensures ((P - 1) / n) * n2 == (P - 1) / n1
  {
    LengthDividesOrder(n);
    ExactSubQuotient(P - 1, (P - 1) / n, n1, n2);
  }

  lemma ExactSubQuotient(a: int, c: int, n1: nat, n2: nat)
    requires n1 > 0 && a == c * (n1 * n2)
    ensures c * n2 == a / n1
  {
    assert (c * n2) * n1 == c * (n1 * n2);
    DivModUnique(a, c * n2, 0, n1);
  }

  /** The scale factors multiply: 1/n1 * 1/n2 = 1/n. */
  lemma SubScale(n1: nat, n2: nat)
    requires Length(n1 * n2) && Length(n1) && Length(n2)
    ensures Cong(FInv(FromU64(n1)) * FInv(FromU64(n2)), FInv(FromU64(n1 * n2)), P)
  {
    var d: nat := P - 2;
    PowProduct(n1, n2, d);
    CongMul(FInv(FromU64(n1)), Pow(n1, d), FInv(FromU64(n2)), Pow(n2, d), P);
  }

  // ----- the result of the two algorithms

  /** Scaled transforms: s times the transform at w. */
  ghost function ScaledDft(x: seq<Felt>, w: int, s: Felt): (r: seq<Felt>)
    ensures |r| == |x|
  {
    Scale(Dft(x, w), s)
  }

  lemma ScaledDftAt(x: seq<Felt>, w: int, s: Felt, k: nat)
    requires k < |x|
    ensures Cong(ScaledDft(x, w, s)[k], s * Eval(x, Pow(w, k)), P)
  {
    hide FMul, Eval, Pow;
    CongMod(Eval(x, Pow(w, k)), P);
    FMulCong(Dft(x, w)[k], s);
    CongMul(Dft(x, w)[k], Eval(x, Pow(w, k)), s, s, P);
    assert Eval(x, Pow(w, k)) * s == s * Eval(x, Pow(w, k));
  }

  /** Column c transformed, at k1, times its twiddle w^(k1*c). */
  ghost function Twiddled(x: seq<Felt>, n1: nat, n2: nat, w: int, w1: int, s1: Felt, k1: nat, c: nat): Felt
    requires k1 < n1
  {
    hide FMul, FPow, ScaledDft;
    assert k1 * c >= 0;
    FMul(ScaledDft(Column(x, n2, n1, c), w1, s1)[k1], FPow(w, k1 * c))
  }

  /**
   * The matrices of the run: u holds the twiddled column transforms, v the row transforms, out the
   * last transpose.
   */
  ghost predicate FourStepRun(x: seq<Felt>, n1: nat, n2: nat, w: int, w1: int, w2: int, s1: Felt, s2: Felt,
                              u: seq<Felt>, v: seq<Felt>, out: seq<Felt>)
  {
    && |x| == |u| == |v| == |out| == n1 * n2
    && (forall k1, c | 0 <= k1 < n1 && 0 <= c < n2 ::
          Entry(u, n2, k1, c) == Twiddled(x, n1, n2, w, w1, s1, k1, c))
    && (forall k1 | 0 <= k1 < n1 :: Row(v, n2, k1) == ScaledDft(Row(u, n2, k1), w2, s2))
    && Transposed(v, out, n1, n2)
  }

  lemma MiddleEntry(x: seq<Felt>, n1: nat, n2: nat, w: int, w1: int, s1: Felt, k1: nat, c: nat, e: Felt)
    requires k1 < n1 && e == Twiddled(x, n1, n2, w, w1, s1, k1, c)
    ensures Cong(e, s1 * Pow(Pow(w, k1), c) * Eval(Column(x, n2, n1, c), Pow(w1, k1)), P)
  {
    hide FMul, Eval, ScaledDft, Column;
    var col := Column(x, n2, n1, c);
    var d := ScaledDft(col, w1, s1)[k1];
    var t := FPow(w, k1 * c);
    ScaledDftAt(col, w1, s1, k1);
    FMulCong(d, t);
    PowMul(w, k1, c);
    Regroup(e, d, t, s1, Eval(col, Pow(w1, k1)), Pow(Pow(w, k1), c));
  }

  lemma Regroup(e: int, d: int, t: int, s: int, v: int, p: int)
    requires Cong(e, d * t, P) && Cong(d, s * v, P) && Cong(t, p, P)
    ensures Cong(e, s * p * v, P)
  {
    CongMul(d, s * v, t, p, P);
    assert (s * v) * p == s * p * v;
  }

  /** Entry (k2, k1) of the output is the scaled transform at k2 * n1 + k1. */
  lemma FourStepEntry(x: seq<Felt>, n1: nat, n2: nat, w: int, w1: int, w2: int, s1: Felt, s2: Felt, s: Felt,
                      u: seq<Felt>, v: seq<Felt>, out: seq<Felt>, k1: nat, k2: nat)
    requires FourStepRun(x, n1, n2, w, w1, w2, s1, s2, u, v, out) && k1 < n1 && k2 < n2
    requires Cong(w1, Pow(w, n2), P) && Cong(w2, Pow(w, n1), P) && Cong(Pow(w, n1 * n2), 1, P)
    requires Cong(s1 * s2, s, P)
    ensures Entry(out, n1, k2, k1) == Entry(ScaledDft(x, w, s), n1, k2, k1)
  {
    hide FMul, Eval, ScaledDft, Column, FPow, Row, Cong, Pow, Twiddled;
    var row := Row(u, n2, k1);
    forall c | 0 <= c < n2
      ensures Cong(row[c], s1 * Pow(Pow(w, k1), c) * Eval(Column(x, n2, n1, c), Pow(w1, k1)), P)
    {
      MiddleEntry(x, n1, n2, w, w1, s1, k1, c, row[c]);
    }
    FourStepAt(x, n1, n2, w, w1, w2, s1, k1, k2, row);
    ScaledDftAt(row, w2, s2, k2);
    InBounds(k2, k1, n2, n1);
    assert n2 * n1 == n1 * n2;
    ScaledDftAt(x, w, s, k2 * n1 + k1);
    assert Row(v, n2, k1)[k2] == Entry(v, n2, k1, k2);
    CombineScales(ScaledDft(row, w2, s2)[k2], Eval(row, Pow(w2, k2)), Eval(x, Pow(w, k2 * n1 + k1)),
                  s1, s2, s, ScaledDft(x, w, s)[k2 * n1 + k1]);
  }

  lemma CombineScales(a: Felt, er: int, ex: int, s1: int, s2: int, s: int, b: Felt)
    requires Cong(a, s2 * er, P) && Cong(er, s1 * ex, P) && Cong(s1 * s2, s, P) && Cong(b, s * ex, P)
    ensures a == b
  {
    CongMulLeft(s2, er, s1 * ex, P);
    CongMulLeft(ex, s1 * s2, s, P);
    assert s2 * (s1 * ex) == ex * (s1 * s2) && ex * s == s * ex;
    CongCanonical(a, b, P);
    CongCanonical(b, b, P);
  }

  lemma FourStepResult(x: seq<Felt>, n1: nat, n2: nat, w: int, w1: int, w2: int, s1: Felt, s2: Felt, s: Felt,
                       u: seq<Felt>, v: seq<Felt>, out: seq<Felt>)
    requires FourStepRun(x, n1, n2, w, w1, w2, s1, s2, u, v, out)
    requires Cong(w1, Pow(w, n2), P) && Cong(w2, Pow(w, n1), P) && Cong(Pow(w, n1 * n2), 1, P)
    requires Cong(s1 * s2, s, P)
    ensures out == ScaledDft(x, w, s)
  {
    hide FourStepRun, Entry, ScaledDft;
    forall k2, k1 | 0 <= k2 < n2 && 0 <= k1 < n1
      ensures Entry(out, n1, k2, k1) == Entry(ScaledDft(x, w, s), n1, k2, k1)
    {
      FourStepEntry(x, n1, n2, w, w1, w2, s1, s2, s, u, v, out, k1, k2);
    }
    RunShape(x, n1, n2, w, w1, w2, s1, s2, u, v, out);
    EntriesDetermine(out, ScaledDft(x, w, s), n2, n1);
  }

  lemma RunShape(x: seq<Felt>, n1: nat, n2: nat, w: int, w1: int, w2: int, s1: Felt, s2: Felt,
                 u: seq<Felt>, v: seq<Felt>, out: seq<Felt>)
    requires FourStepRun(x, n1, n2, w, w1, w2, s1, s2, u, v, out)
    ensures |x| == |out| == n2 * n1
  {
    assert n2 * n1 == n1 * n2;
  }

  // ----- the loops

  /** The row-by-row transforms of the middle steps. */
  method TransformRows(a: array<Felt>, height: nat, width: nat, inverse: bool)
    requires a.Length == height * width && Length(width)
    modifies a
    ensures forall r | 0 <= r < height ::
              Row(a[..], width, r) == RowTransform(Row(old(a[..]), width, r), inverse)
  {
    hide Row, RowTransform, PowerOfTwo, Dft, InverseDft;
    ghost var was := a[..];
    for r := 0 to height
      invariant forall t | 0 <= t < height ::
                  Row(a[..], width, t)
                  == if t < r then RowTransform(Row(was, width, t), inverse) else Row(was, width, t)
    {
      ghost var y := a[..];
      RowIsSlice(y, height, width, r);
      TransformSlice(a, r * width, width, inverse);
      RowIsSlice(a[..], height, width, r);
      forall t | 0 <= t < height && t != r
        ensures Row(a[..], width, t) == Row(y, width, t)
      {
        OtherRow(y, a[..], height, width, r, t);
      }
    }
  }

  method TransformSlice(a: array<Felt>, at: nat, width: nat, inverse: bool)
    requires at + width <= a.Length && Length(width)
    modifies a
    ensures a[at..at + width] == RowTransform(old(a[at..at + width]), inverse)
    ensures a[..at] == old(a[..at]) && a[at + width..] == old(a[at + width..])
  {
    hide RowTransform, PowerOfTwo, Dft, InverseDft;
    LengthNotZero(width);
    RowTransformIs(a[at..at + width], width, inverse);
    if inverse {
      InverseNttRadix2(a, at, width);
    } else {
      ForwardNttRadix2(a, at, width);
    }
  }

  lemma LengthNotZero(n: nat)
    requires Length(n)
    ensures n > 0
  {}

  /** What the row loop does to one row: radix-2 forward or inverse. */
  ghost function RowTransform(x: seq<Felt>, inverse: bool): (r: seq<Felt>)
    ensures |r| == |x|
  {
    if |x| == 0 then x
    else ScaledDft(x, if inverse then FInv(Root(|x|)) else Root(|x|),
                   if inverse then FInv(FromU64Length(|x|)) else 1)
  }

  ghost function FromU64Length(n: nat): Felt
  {
    if n <= TWO_32 then FromU64(n) else 1
  }

  lemma RowTransformIs(x: seq<Felt>, n: nat, inverse: bool)
    requires n == |x| && Length(n)
    ensures RowTransform(x, inverse) == if inverse then InverseDft(x) else Dft(x, Root(n))
  {
    if !inverse { ScaleByOne(Dft(x, Root(n))); }
  }

  lemma ScaleByOne(y: seq<Felt>)
    ensures Scale(y, 1) == y
  {
    hide FMul;
    forall i | 0 <= i < |y|
      ensures FMul(y[i], 1) == y[i]
    {
      FMulCong(y[i], 1);
      CongCanonical(FMul(y[i], 1), y[i], P);
      CongCanonical(y[i], y[i], P);
    }
  }

  lemma OtherRow(y: seq<Felt>, z: seq<Felt>, height: nat, width: nat, r: nat, t: nat)
    requires |y| == |z| == height * width && r < height && t < height && t != r
    requires r * width + width <= |y|
    requires z[..r * width] == y[..r * width] && z[r * width + width..] == y[r * width + width..]
    ensures Row(z, width, t) == Row(y, width, t)
  {
    forall c | 0 <= c < width
      ensures Entry(z, width, t, c) == Entry(y, width, t, c)
    {
      InBounds(t, c, height, width);
      OtherCell(y, z, r * width, width, t * width + c, r, t, c);
    }
  }

  lemma OtherCell(y: seq<Felt>, z: seq<Felt>, at: nat, width: nat, i: nat, r: nat, t: nat, c: nat)
    requires |y| == |z| && at == r * width && i == t * width + c && c < width && t != r && i < |y|
    requires at + width <= |y| && z[..at] == y[..at] && z[at + width..] == y[at + width..]
    ensures z[i] == y[i]
  {
    if t < r { RowAbove(t, r, width); } else { RowAbove(r, t, width); }
    if i < at {
      assert z[i] == z[..at][i] && y[i] == y[..at][i];
    } else {
      assert z[i] == z[at + width..][i - at - width] && y[i] == y[at + width..][i - at - width];
    }
  }

  lemma RowAbove(t: nat, r: nat, width: nat)
    requires t < r
    ensures t * width + width <= r * width
  {
    assert (t + 1) * width <= r * width;
    assert (t + 1) * width == t * width + width;
  }

  /** Step 2 and its inverse: entry (c, k) times base^(k*c). */
  method Twiddle(a: array<Felt>, height: nat, width: nat, base: Felt)
    requires a.Length == height * width && height * width <= TWO_32
    modifies a
    ensures forall r, c | 0 <= r < height && 0 <= c < width ::
              Entry(a[..], width, r, c) == TwiddledEntry(old(a[..]), width, base, r, c)
  {
    hide Entry, TwiddledEntry;
    ghost var was := a[..];
    for r := 0 to height
      invariant forall t, c | 0 <= t < height && 0 <= c < width ::
                  Entry(a[..], width, t, c) ==
                  if t < r then TwiddledEntry(was, width, base, t, c) else Entry(was, width, t, c)
    {
      for k := 0 to width
        invariant forall t, c | 0 <= t < height && 0 <= c < width ::
                    Entry(a[..], width, t, c) ==
                    if t < r || (t == r && c < k) then TwiddledEntry(was, width, base, t, c)
                    else Entry(was, width, t, c)
      {
        InBounds(r, k, height, width);
        TwiddleExponent(k, r, width, height);
        ghost var y := a[..];
        var twiddle := Exp(base, k * r);
        var idx := r * width + k;
        a[idx] := FMul(a[idx], twiddle);
        TwiddleStored(was, y, a[..], height, width, base, r, k);
      }
    }
  }

  ghost function TwiddledEntry(x: seq<Felt>, width: nat, base: Felt, r: nat, c: nat): Felt
  {
    hide FMul, FPow, Entry;
    FMul(Entry(x, width, r, c), FPow(base, Exponent(c, r)))
  }

  ghost function Exponent(k: nat, r: nat): nat { k * r }

  lemma TwiddleExponent(k: nat, r: nat, width: nat, height: nat)
    requires k < width && r < height && height * width <= TWO_32
    ensures 0 <= k * r < TWO_64
  {
    assert k * r <= width * r <= width * height == height * width;
  }

  lemma TwiddleStored(was: seq<Felt>, y: seq<Felt>, z: seq<Felt>, height: nat, width: nat, base: Felt, r: nat, k: nat)
    requires |y| == |was| == height * width && r < height && k < width && r * width + k < |y|
    requires k * r >= 0 && z == y[r * width + k := FMul(y[r * width + k], FPow(base, k * r))]
    requires Entry(y, width, r, k) == Entry(was, width, r, k)
    ensures Entry(z, width, r, k) == TwiddledEntry(was, width, base, r, k)
    ensures forall t, c | 0 <= t < height && 0 <= c < width && !(t == r && c == k) ::
              Entry(z, width, t, c) == Entry(y, width, t, c)
  {
    hide FMul, FPow;
    forall t, c | 0 <= t < height && 0 <= c < width && !(t == r && c == k)
      ensures Entry(z, width, t, c) == Entry(y, width, t, c)
    {
      if t * width + c == r * width + k { SameCell(t, c, r, k, width); }
    }
  }

  // ----- the split of the length

  function TrailingZeros(n: nat): nat
    requires n > 0
    decreases n
  {
    if n % 2 == 1 then 0 else 1 + TrailingZeros(n / 2)
  }

  lemma {:induction false} ShiftAdds(j: nat, k: nat)
    ensures ShiftLeftOne(j) * ShiftLeftOne(k) == ShiftLeftOne(j + k)
    ensures PowerOfTwo(ShiftLeftOne(j))
  {
    hide PowerOfTwo;
    if j == 0 {
      assert PowerOfTwo(1) by { UnitLength(); }
    } else {
      ShiftAdds(j - 1, k);
      HalfOfDouble(ShiftLeftOne(j - 1));
      MulAssoc(2, ShiftLeftOne(j - 1), ShiftLeftOne(k));
    }
  }

  lemma UnitLength()
    ensures PowerOfTwo(1)
  {}

  lemma {:induction false} TrailingZerosOfPower(n: nat)
    requires PowerOfTwo(n)
    ensures ShiftLeftOne(TrailingZeros(n)) == n
    decreases n
  {
    if n > 1 { TrailingZerosOfPower(n / 2); }
  }

  /** The dimensions chosen by the four-step transforms: n1 * n2 = n, both powers of two. */
  lemma SplitDimensions(n: nat, n1: nat, n2: nat)
    requires PowerOfTwo(n) && n > 0
    requires n1 == ShiftLeftOne(TrailingZeros(n) / 2)
    requires n2 == ShiftLeftOne(TrailingZeros(n) - TrailingZeros(n) / 2)
    ensures n1 * n2 == n && PowerOfTwo(n1) && PowerOfTwo(n2)
  {
    hide ShiftLeftOne, TrailingZeros, PowerOfTwo;
    TrailingZerosOfPower(n);
    var t := TrailingZeros(n);
    ShiftAdds(t / 2, t - t / 2);
    ShiftAdds(t - t / 2, t / 2);
  }

  const CUTOFF := 1024

  // ----- forward

  /** cache_oblivious_4step_ntt. */
  method FourStepNtt(a: array<Felt>)
    requires a.Length <= 1 || Length(a.Length)
    modifies a
    ensures a.Length > 0 ==> a[..] == Dft(old(a[..]), Root(a.Length))
  {
    hide PowerOfTwo, Dft, ShiftLeftOne, TrailingZeros, Root;
    var n := a.Length;
    if n <= CUTOFF {
      assert a[0..n] == a[..];
      ForwardNttRadix2(a, 0, n);
      assert a[0..n] == a[..];
      return;
    }
    var logN := TrailingZeros(n);
    var n1 := ShiftLeftOne(logN / 2);
    var n2 := ShiftLeftOne(logN - logN / 2);
    SplitDimensions(n, n1, n2);
    FourStepForward(a, n, n1, n2);
  }

  method FourStepForward(a: array<Felt>, n: nat, n1: nat, n2: nat)
    requires a.Length == n == n1 * n2 && Length(n) && PowerOfTwo(n1) && PowerOfTwo(n2)
    modifies a
    ensures n > 0 && a[..] == Dft(old(a[..]), Root(n))
  {
    hide PowerOfTwo, Dft, RowTransform, Row, Entry, TwiddledEntry, Column, Root, Pow, Cong, Transposed, FInv;
    FactorBounds(n, n1, n2);
    SubRoot(n, n1, n2);
    assert n2 * n1 == n;
    SubRoot(n, n2, n1);
    ghost var x := a[..];
    var temp := new Felt[n](_ => 0);
    var omega := GetRootOfUnity(n);

    MatrixTranspose(a, temp, n1, n2);
    ghost var t0 := temp[..];
    TransformRows(temp, n2, n1, false);
    ghost var t1 := temp[..];
    Twiddle(temp, n2, n1, omega);
    ghost var t2 := temp[..];
    MatrixTranspose(temp, a, n2, n1);
    ghost var u := a[..];
    TransformRows(a, n1, n2, false);
    ghost var v := a[..];
    MatrixTranspose(a, temp, n1, n2);
    CopyFromSlice(a, temp);
    ForwardRun(x, n, n1, n2, t0, t1, t2, u, v, a[..]);
  }

  method CopyFromSlice(a: array<Felt>, src: array<Felt>)
    requires a != src && a.Length == src.Length
    modifies a
    ensures a[..] == src[..] == old(src[..])
  {
    for i := 0 to a.Length
      invariant a[..i] == src[..i] && src[..] == old(src[..])
    {
      a[i] := src[i];
    }
    assert a[..] == a[..a.Length] && src[..] == src[..a.Length];
  }

  lemma ForwardRun(x: seq<Felt>, n: nat, n1: nat, n2: nat, t0: seq<Felt>, t1: seq<Felt>, t2: seq<Felt>,
                   u: seq<Felt>, v: seq<Felt>, out: seq<Felt>)
    requires n == n1 * n2 && Length(n) && n1 > 0 && n2 > 0
    requires |x| == |t0| == |t1| == |t2| == |u| == |v| == |out| == n
    requires Transposed(x, t0, n1, n2)
    requires forall c | 0 <= c < n2 :: Row(t1, n1, c) == RowTransform(Row(t0, n1, c), false)
    requires forall c, k | 0 <= c < n2 && 0 <= k < n1 :: Entry(t2, n1, c, k) == TwiddledEntry(t1, n1, Root(n), c, k)
    requires Transposed(t2, u, n2, n1)
    requires forall k | 0 <= k < n1 :: Row(v, n2, k) == RowTransform(Row(u, n2, k), false)
    requires Transposed(v, out, n1, n2)
    requires Cong(Root(n1), Pow(Root(n), n2), P) && Cong(Root(n2), Pow(Root(n), n1), P)
    ensures out == Dft(x, Root(n))
  {
    RootIsRoot(n);
    RootPeriod(Root(n), n);
    hide PowerOfTwo, Dft, RowTransform, Row, Entry, TwiddledEntry, Column, Root, Twiddled;
    forall k, c | 0 <= k < n1 && 0 <= c < n2
      ensures Entry(u, n2, k, c) == Twiddled(x, n1, n2, Root(n), Root(n1), 1, k, c)
    {
      ForwardEntry(x, n1, n2, t0, t1, t2, Root(n), k, c);
      assert Entry(u, n2, k, c) == Entry(t2, n1, c, k);
    }
    forall k | 0 <= k < n1
      ensures Row(v, n2, k) == ScaledDft(Row(u, n2, k), Root(n2), 1)
    {
      RowTransformForward(Row(u, n2, k), n2);
    }
    FourStepResult(x, n1, n2, Root(n), Root(n1), Root(n2), 1, 1, 1, u, v, out);
    ScaleByOne(Dft(x, Root(n)));
  }

  lemma RowTransformForward(x: seq<Felt>, n: nat)
    requires |x| == n > 0
    ensures RowTransform(x, false) == ScaledDft(x, Root(n), 1)
  {}

  lemma TransposedColumn(x: seq<Felt>, t0: seq<Felt>, n1: nat, n2: nat, c: nat)
    requires Transposed(x, t0, n1, n2) && c < n2
    ensures Row(t0, n1, c) == Column(x, n2, n1, c)
  {
    hide Entry;
    forall r | 0 <= r < n1
      ensures Row(t0, n1, c)[r] == Column(x, n2, n1, c)[r]
    {
      assert Entry(t0, n1, c, r) == Entry(x, n2, r, c);
    }
  }

  lemma ForwardEntry(x: seq<Felt>, n1: nat, n2: nat, t0: seq<Felt>, t1: seq<Felt>, t2: seq<Felt>,
                     w: Felt, k: nat, c: nat)
    requires k < n1 && c < n2 && Transposed(x, t0, n1, n2)
    requires Row(t1, n1, c) == RowTransform(Row(t0, n1, c), false)
    requires Entry(t2, n1, c, k) == TwiddledEntry(t1, n1, w, c, k)
    ensures Entry(t2, n1, c, k) == Twiddled(x, n1, n2, w, Root(n1), 1, k, c)
  {
    hide Entry, FMul, FPow, Dft, Scale, Root;
    TransposedColumn(x, t0, n1, n2, c);
    RowTransformForward(Row(t0, n1, c), n1);
    assert Row(t1, n1, c)[k] == Entry(t1, n1, c, k);
  }

  // ----- inverse

  /** cache_oblivious_4step_intt. */
  method FourStepIntt(a: array<Felt>)
    requires a.Length <= 1 || Length(a.Length)
    modifies a
    ensures a.Length > 0 ==> a[..] == InverseDft(old(a[..]))
  {
    hide PowerOfTwo, InverseDft, ShiftLeftOne, TrailingZeros;
    var n := a.Length;
    if n <= CUTOFF {
      assert a[0..n] == a[..];
      InverseNttRadix2(a, 0, n);
      assert a[0..n] == a[..];
      return;
    }
    var logN := TrailingZeros(n);
    var n1 := ShiftLeftOne(logN / 2);
    var n2 := ShiftLeftOne(logN - logN / 2);
    SplitDimensions(n, n1, n2);
    FourStepInverse(a, n, n1, n2);
  }

  method FourStepInverse(a: array<Felt>, n: nat, n1: nat, n2: nat)
    requires a.Length == n == n1 * n2 && Length(n) && PowerOfTwo(n1) && PowerOfTwo(n2)
    modifies a
    ensures a[..] == InverseDft(old(a[..]))
  {
    hide PowerOfTwo, InverseDft, RowTransform, Row, Entry, TwiddledEntry, Column, Root, Pow, Transposed, FInv, Cong;
    FactorBounds(n, n1, n2);
    SubRoot(n, n1, n2);
    assert n2 * n1 == n;
    SubRoot(n, n2, n1);
    RootInverse(n);
    ghost var x := a[..];
    var temp := new Felt[n](_ => 0);
    var omega := GetRootOfUnity(n);
    NonZero(omega, FInv(omega));
    var omegaInv := Invert(omega);

    MatrixTranspose(a, temp, n2, n1);
    ghost var t0 := temp[..];
    TransformRows(temp, n1, n2, true);
    ghost var t1 := temp[..];
    MatrixTranspose(temp, a, n1, n2);
    ghost var t2 := a[..];
    Twiddle(a, n2, n1, omegaInv);
    ghost var u := a[..];
    TransformRows(a, n2, n1, true);
    ghost var v := a[..];
    MatrixTranspose(a, temp, n2, n1);
    CopyFromSlice(a, temp);
    InverseRun(x, n, n2, n1, t0, t1, t2, u, v, a[..]);
  }

  lemma InverseRun(x: seq<Felt>, n: nat, n1: nat, n2: nat, t0: seq<Felt>, t1: seq<Felt>, t2: seq<Felt>,
                   u: seq<Felt>, v: seq<Felt>, out: seq<Felt>)
    requires n == n1 * n2 && Length(n) && Length(n1) && Length(n2) && n1 > 0 && n2 > 0
    requires |x| == |t0| == |t1| == |t2| == |u| == |v| == |out| == n
    requires Transposed(x, t0, n1, n2)
    requires forall c | 0 <= c < n2 :: Row(t1, n1, c) == RowTransform(Row(t0, n1, c), true)
    requires Transposed(t1, t2, n2, n1)
    requires forall k, c | 0 <= k < n1
             && 0 <= c < n2 :: Entry(u, n2, k, c) == TwiddledEntry(t2, n2, FInv(Root(n)), k, c)
    requires forall k | 0 <= k < n1 :: Row(v, n2, k) == RowTransform(Row(u, n2, k), true)
    requires Transposed(v, out, n1, n2)
    requires Cong(FInv(Root(n1)), Pow(FInv(Root(n)), n2), P) && Cong(FInv(Root(n2)), Pow(FInv(Root(n)), n1), P)
    ensures out == InverseDft(x)
  {
    RootInverse(n);
    RootPeriod(FInv(Root(n)), n);
    SubScale(n1, n2);
    hide PowerOfTwo, RowTransform, Row, Entry, TwiddledEntry, Column, Root, Twiddled, FInv, FromU64;
    var v0, v1, v2 := FInv(Root(n)), FInv(Root(n1)), FInv(Root(n2));
    var s1, s2 := FInv(FromU64(n1)), FInv(FromU64(n2));
    forall k, c | 0 <= k < n1 && 0 <= c < n2
      ensures Entry(u, n2, k, c) == Twiddled(x, n1, n2, v0, v1, s1, k, c)
    {
      InverseEntry(x, n1, n2, t0, t1, t2, u, v0, k, c);
    }
    forall k | 0 <= k < n1
      ensures Row(v, n2, k) == ScaledDft(Row(u, n2, k), v2, s2)
    {
      RowTransformInverse(Row(u, n2, k), n2);
    }
    FourStepResult(x, n1, n2, v0, v1, v2, s1, s2, FInv(FromU64(n)), u, v, out);
  }

  lemma RowTransformInverse(x: seq<Felt>, n: nat)
    requires |x| == n > 0 && n <= TWO_32
    ensures RowTransform(x, true) == ScaledDft(x, FInv(Root(n)), FInv(FromU64(n)))
  {}

  lemma InverseEntry(x: seq<Felt>, n1: nat, n2: nat, t0: seq<Felt>, t1: seq<Felt>, t2: seq<Felt>, u: seq<Felt>,
                     w: Felt, k: nat, c: nat)
    requires k < n1 && c < n2 && n1 <= TWO_32 && Transposed(x, t0, n1, n2) && Transposed(t1, t2, n2, n1)
    requires Row(t1, n1, c) == RowTransform(Row(t0, n1, c), true)
    requires Entry(u, n2, k, c) == TwiddledEntry(t2, n2, w, k, c)
    ensures Entry(u, n2, k, c) == Twiddled(x, n1, n2, w, FInv(Root(n1)), FInv(FromU64(n1)), k, c)
  {
    hide Entry, FMul, FPow, Dft, Scale, Root, FInv, FromU64;
    TransposedColumn(x, t0, n1, n2, c);
    RowTransformInverse(Row(t0, n1, c), n1);
    assert Row(t1, n1, c)[k] == Entry(t1, n1, c, k);
    assert Entry(t2, n2, k, c) == Entry(t1, n1, c, k);
    assert k * c == c * k;
  }
}
