/**
 * Vectors and matrices of polynomials, after solomon-core/src/crypto/matrix.rs: linearity of the
 * transforms, the matrix-vector product through them, and the infinity norm.
 */
module MlDsaVectors {
  import opened Congruence
  import opened Evaluation
  import opened MlDsaScalar
  import opened MlDsaNtt
  import opened MlDsaRing
  import opened MlDsaRounding
  import opened MlDsaProduct

  // ----- sums and differences

  function AddPoly(a: seq<Zq>, b: seq<Zq>): (r: seq<Zq>)
    requires |a| == N && |b| == N
    ensures |r| == N && forall i | 0 <= i < N :: r[i] == SAdd(a[i], b[i])
  {
    hide SAdd;
    seq(N, i requires 0 <= i < N => SAdd(a[i], b[i]))
  }

  function SubPoly(a: seq<Zq>, b: seq<Zq>): (r: seq<Zq>)
    requires |a| == N && |b| == N
    ensures |r| == N && forall i | 0 <= i < N :: r[i] == SSub(a[i], b[i])
  {
    hide SSub;
    seq(N, i requires 0 <= i < N => SSub(a[i], b[i]))
  }

  function ZeroPoly(): (r: seq<Zq>)
    ensures |r| == N && forall i | 0 <= i < N :: r[i] == 0
  {
    seq(N, _ => 0)
  }

  // ----- the transforms are linear

  ghost function Combined(a: int, z: int, b: int): int { a + z * b }

  ghost function Times(a: int, b: int): int { a * b }

  /** c = a + z * b, coefficient by coefficient modulo q. */
  ghost predicate Combines(c: seq<Zq>, a: seq<Zq>, b: seq<Zq>, z: int)
  {
    |a| == N && |b| == N && |c| == N && forall i | 0 <= i < N :: Cong(c[i], Combined(a[i], z, b[i]), Q)
  }

  lemma NttCombines(c: seq<Zq>, a: seq<Zq>, b: seq<Zq>, z: int)
    requires Combines(c, a, b, z)
    ensures Combines(Ntt(c), Ntt(a), Ntt(b), z)
  {
    hide Ntt, Cong, LeafRoot, Eval;
    forall i | 0 <= i < N
      ensures Cong(Ntt(c)[i], Ntt(a)[i] + z * Ntt(b)[i], Q)
    {
      var x := LeafRoot(i);
      NttAtLeaf(a, i);
      NttAtLeaf(b, i);
      NttAtLeaf(c, i);
      EvalLinear(a, b, z, c, x, Q);
      CombineValues(Ntt(c)[i], Eval(c, x), Ntt(a)[i], Eval(a, x), Ntt(b)[i], Eval(b, x), z);
    }
  }

  lemma CombineValues(c: int, c': int, a: int, a': int, b: int, b': int, z: int)
    requires Cong(c, c', Q) && Cong(a, a', Q) && Cong(b, b', Q) && Cong(c', a' + z * b', Q)
    ensures Cong(c, a + z * b, Q)
  {
    CongMulLeft(z, b, b', Q);
    CongAdd(a, a', z * b, z * b', Q);
  }

  lemma AddCombines(a: seq<Zq>, b: seq<Zq>)
    requires |a| == N && |b| == N
    ensures Combines(AddPoly(a, b), a, b, 1)
  {
    hide SAdd, Cong;
    forall i | 0 <= i < N ensures Cong(AddPoly(a, b)[i], Combined(a[i], 1, b[i]), Q) { SAddCong(a[i], b[i]); }
  }

  lemma SubCombines(a: seq<Zq>, b: seq<Zq>)
    requires |a| == N && |b| == N
    ensures Combines(SubPoly(a, b), a, b, -1)
  {
    hide SSub, Cong;
    forall i | 0 <= i < N ensures Cong(SubPoly(a, b)[i], Combined(a[i], -1, b[i]), Q) { SSubCong(a[i], b[i]); }
  }

  /** A combination is determined by its parts. */
  lemma CombinesUnique(c: seq<Zq>, d: seq<Zq>, a: seq<Zq>, b: seq<Zq>, z: int)
    requires Combines(c, a, b, z) && Combines(d, a, b, z)
    ensures c == d
  {
    forall i | 0 <= i < N ensures c[i] == d[i] { ZqUnique(c[i], d[i]); }
  }

  /** ntt(a + b) = ntt(a) + ntt(b). */
  lemma NttAdd(a: seq<Zq>, b: seq<Zq>)
    requires |a| == N && |b| == N
    ensures Ntt(AddPoly(a, b)) == AddPoly(Ntt(a), Ntt(b))
  {
    hide Ntt, AddPoly, Combines;
    AddCombines(a, b);
    NttCombines(AddPoly(a, b), a, b, 1);
    AddCombines(Ntt(a), Ntt(b));
    CombinesUnique(Ntt(AddPoly(a, b)), AddPoly(Ntt(a), Ntt(b)), Ntt(a), Ntt(b), 1);
  }

  lemma NttSub(a: seq<Zq>, b: seq<Zq>)
    requires |a| == N && |b| == N
    ensures Ntt(SubPoly(a, b)) == SubPoly(Ntt(a), Ntt(b))
  {
    hide Ntt, SubPoly, Combines;
    SubCombines(a, b);
    NttCombines(SubPoly(a, b), a, b, -1);
    SubCombines(Ntt(a), Ntt(b));
    CombinesUnique(Ntt(SubPoly(a, b)), SubPoly(Ntt(a), Ntt(b)), Ntt(a), Ntt(b), -1);
  }

  lemma NttZero()
    ensures Ntt(ZeroPoly()) == ZeroPoly()
  {
    hide Ntt, SSub;
    var z := ZeroPoly();
    assert SubPoly(z, z) == z by { SelfDifference(z); }
    NttSub(z, z);
    SelfDifference(Ntt(z));
  }

  lemma SelfDifference(a: seq<Zq>)
    requires |a| == N
    ensures SubPoly(a, a) == ZeroPoly()
  {}

  /** intt(ntt(a) * ntt(b)) is the ring product. */
  lemma InttOfPointwise(a: seq<Zq>, b: seq<Zq>)
    requires |a| == N && |b| == N
    ensures Intt(Pointwise(Ntt(a), Ntt(b))) == RingMul(a, b)
  {
    hide Ntt, Intt, Pointwise, RingMul;
    NttOfProduct(a, b);
    InttUndoesNtt(RingMul(a, b));
  }

  // ----- vectors and matrices

  function NttAll(v: seq<seq<Zq>>): (r: seq<seq<Zq>>)
    requires IsVector(v, |v|)
    ensures IsVector(r, |v|) && forall i | 0 <= i < |v| :: r[i] == Ntt(v[i])
  {
    hide Ntt;
    seq(|v|, i requires 0 <= i < |v| => Ntt(v[i]))
  }

  function InttAll(v: seq<seq<Zq>>): (r: seq<seq<Zq>>)
    requires IsVector(v, |v|)
    ensures IsVector(r, |v|) && forall i | 0 <= i < |v| :: r[i] == Intt(v[i])
  {
    hide Intt;
    seq(|v|, i requires 0 <= i < |v| => Intt(v[i]))
  }

  function AddAll(u: seq<seq<Zq>>, v: seq<seq<Zq>>): (r: seq<seq<Zq>>)
    requires IsVector(u, |u|) && IsVector(v, |u|)
    ensures IsVector(r, |u|) && forall i | 0 <= i < |u| :: r[i] == AddPoly(u[i], v[i])
  {
    hide AddPoly;
    seq(|u|, i requires 0 <= i < |u| => AddPoly(u[i], v[i]))
  }

  /** c * v[i] for every i, c and v transformed. */
  function ScaleAll(c: seq<Zq>, v: seq<seq<Zq>>): (r: seq<seq<Zq>>)
    requires |c| == N && IsVector(v, |v|)
    ensures IsVector(r, |v|) && forall i | 0 <= i < |v| :: r[i] == Pointwise(c, v[i])
  {
    hide Pointwise;
    seq(|v|, i requires 0 <= i < |v| => Pointwise(c, v[i]))
  }

  predicate IsMatrix(a: seq<seq<seq<Zq>>>, k: nat, l: nat)
  {
    |a| == k && forall i | 0 <= i < k :: IsVector(a[i], l)
  }

  /** The first n terms of a row times a vector, both transformed. */
  function RowSum(row: seq<seq<Zq>>, v: seq<seq<Zq>>, n: nat): (r: seq<Zq>)
    requires IsVector(row, |row|) && IsVector(v, |row|) && n <= |row|
    ensures |r| == N
  {
    hide Pointwise, AddPoly;
    if n == 0 then ZeroPoly() else AddPoly(RowSum(row, v, n - 1), Pointwise(row[n - 1], v[n - 1]))
  }

  function MatVec(a: seq<seq<seq<Zq>>>, v: seq<seq<Zq>>): (r: seq<seq<Zq>>)
    requires IsMatrix(a, |a|, |v|) && IsVector(v, |v|)
    ensures IsVector(r, |a|) && forall i | 0 <= i < |a| :: r[i] == RowSum(a[i], v, |v|)
  {
    hide RowSum;
    seq(|a|, i requires 0 <= i < |a| => RowSum(a[i], v, |v|))
  }

  /** mul_vector_ntt. */
  method MulVectorNtt(a: seq<seq<seq<Zq>>>, v: seq<seq<Zq>>) returns (result: seq<seq<Zq>>)
    requires IsMatrix(a, |a|, |v|) && IsVector(v, |v|)
    ensures result == MatVec(a, v)
  {
    hide Pointwise, AddPoly, RowSum, ZeroPoly;
    result := [];
    for i := 0 to |a|
      invariant |result| == i && forall t | 0 <= t < i :: result[t] == RowSum(a[t], v, |v|)
    {
      var sum := ZeroPoly();
      assert sum == RowSum(a[i], v, 0) by { NoTermsYet(a[i], v); }
      for j := 0 to |v|
        invariant |sum| == N && sum == RowSum(a[i], v, j)
      {
        RowSumStep(a[i], v, j);
        var prod := Pointwise(a[i][j], v[j]);
        sum := AddPoly(sum, prod);
      }
      result := result + [sum];
    }
  }

  lemma NoTermsYet(row: seq<seq<Zq>>, v: seq<seq<Zq>>)
    requires IsVector(row, |row|) && IsVector(v, |row|)
    ensures RowSum(row, v, 0) == ZeroPoly()
  {}

  lemma RowSumStep(row: seq<seq<Zq>>, v: seq<seq<Zq>>, j: nat)
    requires IsVector(row, |row|) && IsVector(v, |row|) && j < |row|
    ensures RowSum(row, v, j + 1) == AddPoly(RowSum(row, v, j), Pointwise(row[j], v[j]))
  {
    hide Pointwise, AddPoly;
  }

  /** The first n terms of a row times a vector, in the ring. */
  ghost function RingRow(row: seq<seq<Zq>>, v: seq<seq<Zq>>, n: nat): (r: seq<Zq>)
    requires IsVector(row, |row|) && IsVector(v, |row|) && n <= |row|
    ensures |r| == N
  {
    hide RingMul, AddPoly;
    if n == 0 then ZeroPoly() else AddPoly(RingRow(row, v, n - 1), RingMul(row[n - 1], v[n - 1]))
  }

  lemma {:induction false} RowOfTransforms(row: seq<seq<Zq>>, v: seq<seq<Zq>>, n: nat)
    requires IsVector(row, |row|) && IsVector(v, |row|) && n <= |row|
    ensures RowSum(NttAll(row), NttAll(v), n) == Ntt(RingRow(row, v, n))
  {
    hide Ntt, AddPoly, Pointwise, RingMul, ZeroPoly;
    if n == 0 {
      NttZero();
    } else {
      RowOfTransforms(row, v, n - 1);
      NttOfProduct(row[n - 1], v[n - 1]);
      NttAdd(RingRow(row, v, n - 1), RingMul(row[n - 1], v[n - 1]));
    }
  }

  /**
   * Between transform and inverse transform, mul_vector_ntt is the matrix-vector product over
   * Z_q[X]/(X^256 + 1); the matrix is given transformed, so its entries are read back first.
   */
  lemma MatVecIsRingProduct(a: seq<seq<seq<Zq>>>, v: seq<seq<Zq>>, i: nat)
    requires IsMatrix(a, |a|, |v|) && IsVector(v, |v|) && i < |a|
    ensures InttAll(MatVec(a, NttAll(v)))[i] == RingRow(InttAll(a[i]), v, |v|)
  {
    hide Ntt, Intt, RowSum, RingRow;
    var row := InttAll(a[i]);
    assert NttAll(row) == a[i] by {
      forall j | 0 <= j < |v| ensures NttAll(row)[j] == a[i][j] { NttUndoesIntt(a[i][j]); }
    }
    RowOfTransforms(row, v, |v|);
    InttUndoesNtt(RingRow(row, v, |v|));
  }

  /** A row applied to v = y + c * s, slot by slot. */
  lemma {:induction false} RowCombines(row: seq<seq<Zq>>, v: seq<seq<Zq>>, y: seq<seq<Zq>>, s: seq<seq<Zq>>, c: int,
                                       i: nat, n: nat)
    requires IsVector(row, |row|) && IsVector(v, |row|) && IsVector(y, |row|) && IsVector(s, |row|) && n <= |row|
             && i < N
    requires forall j | 0 <= j < |row| :: Cong(v[j][i], y[j][i] + c * s[j][i], Q)
    ensures Cong(RowSum(row, v, n)[i], RowSum(row, y, n)[i] + c * RowSum(row, s, n)[i], Q)
    decreases n
  {
    hide Cong, PointwiseAt, SAdd, Pointwise, AddPoly, RowSum, ZeroPoly, Times;
    if n == 0 {
      NoTermsYet(row, v);
      NoTermsYet(row, y);
      NoTermsYet(row, s);
      ZeroCombines(c);
    } else {
      RowCombines(row, v, y, s, c, i, n - 1);
      var a := row[n - 1][i];
      RowSlot(row, v, n - 1, i);
      RowSlot(row, y, n - 1, i);
      RowSlot(row, s, n - 1, i);
      CombineSlot(RowSum(row, v, n)[i], RowSum(row, v, n - 1)[i], v[n - 1][i],
                  RowSum(row, y, n)[i], RowSum(row, y, n - 1)[i], y[n - 1][i],
                  RowSum(row, s, n)[i], RowSum(row, s, n - 1)[i], s[n - 1][i], a, c);
    }
  }

  lemma ZeroCombines(c: int)
    ensures Cong(0, 0 + c * 0, Q)
  {}

  lemma RowSlot(row: seq<seq<Zq>>, v: seq<seq<Zq>>, n: nat, i: nat)
    requires IsVector(row, |row|) && IsVector(v, |row|) && n < |row| && i < N
    ensures Cong(RowSum(row, v, n + 1)[i], RowSum(row, v, n)[i] + Times(row[n][i], v[n][i]), Q)
  {
    hide Cong, PointwiseAt, SAdd, RowSum, Pointwise, AddPoly;
    RowSumStep(row, v, n);
    var s, p := RowSum(row, v, n)[i], PointwiseAt(row[n][i], v[n][i]);
    SAddCong(s, p);
    PointwiseValue(row[n][i], v[n][i]);
    AddSlot(SAdd(s, p), s, p, Times(row[n][i], v[n][i]));
  }

  lemma AddSlot(t: int, s: int, p: int, q: int)
    requires Cong(t, s + p, Q) && Cong(p, q, Q)
    ensures Cong(t, s + q, Q)
  {
    CongAdd(s, s, p, q, Q);
  }

  lemma CombineSlot(v': int, v: int, vi: int, y': int, y: int, yi: int, s': int, s: int, si: int, a: int, c: int)
    requires Cong(v', v + Times(a, vi), Q) && Cong(y', y + Times(a, yi), Q) && Cong(s', s + Times(a, si), Q)
    requires Cong(v, y + c * s, Q) && Cong(vi, yi + c * si, Q)
    ensures Cong(v', y' + c * s', Q)
  {
    CongMulLeft(a, vi, yi + c * si, Q);
    CongAdd(v, y + c * s, a * vi, a * (yi + c * si), Q);
    CongMulLeft(c, s', s + a * si, Q);
    CongAdd(y', y + a * yi, c * s', c * (s + a * si), Q);
    Regroup(y, c, s, a, yi, si);
  }

  lemma Regroup(y: int, c: int, s: int, a: int, yi: int, si: int)
    ensures y + c * s + a * (yi + c * si) == y + a * yi + c * (s + a * si)
  {
    assert a * (c * si) == c * (a * si);
  }

  // ----- the infinity norm

  function Magnitude(c: Zq): (r: nat)
  {
    var s := ToSigned(c);
    if s < 0 then 0 - s else s
  }

  /** Every coefficient is below the bound in absolute value. */
  ghost predicate Bounded(v: seq<seq<Zq>>, bound: int)
  {
    forall i, j | 0 <= i < |v| && 0 <= j < |v[i]| :: Magnitude(v[i][j]) < bound
  }

  ghost predicate PolyBounded(p: seq<Zq>, bound: int)
  {
    forall j | 0 <= j < |p| :: Magnitude(p[j]) < bound
  }

  /** Polynomial::inf_norm, with the masked selections as branches. */
  method PolyInfNorm(p: seq<Zq>) returns (max: nat)
    requires |p| == N
    ensures forall bound | bound > 0 :: max < bound <==> PolyBounded(p, bound)
  {
    max := 0;
    for i := 0 to N
      invariant forall j | 0 <= j < i :: Magnitude(p[j]) <= max
      invariant max == 0 || exists j | 0 <= j < i :: Magnitude(p[j]) == max
    {
      var canonical: int := p[i];
      var abs := if canonical > (Q - 1) / 2 then Q - canonical else canonical;
      if max < abs { max := abs; }
    }
  }

  /** PolyVector::inf_norm: below a bound exactly when every coefficient is. */
  method InfNorm(v: seq<seq<Zq>>) returns (max: nat)
    requires IsVector(v, |v|)
    ensures forall bound | bound > 0 :: max < bound <==> Bounded(v, bound)
  {
    hide Magnitude;
    max := 0;
    for i := 0 to |v|
      invariant forall bound | bound > 0 :: max < bound <==> Bounded(v[..i], bound)
    {
      ghost var before := max;
      ghost var next := v[..i + 1];
      var polyMax := PolyInfNorm(v[i]);
      if max < polyMax { max := polyMax; }
      forall bound | bound > 0
        ensures max < bound <==> Bounded(next, bound)
      {
        BoundedSnoc(v, i, bound);
        assert before < bound <==> Bounded(v[..i], bound);
      }
    }
    assert v[..|v|] == v;
  }

  lemma BoundedSnoc(v: seq<seq<Zq>>, i: nat, bound: int)
    requires i < |v|
    ensures Bounded(v[..i + 1], bound) <==> Bounded(v[..i], bound) && PolyBounded(v[i], bound)
  {
    hide Magnitude;
    var w := v[..i + 1];
    assert w[..i] == v[..i];
    if Bounded(w, bound) {
      forall t, j | 0 <= t < i && 0 <= j < |v[..i][t]| ensures Magnitude(v[..i][t][j]) < bound { assert w[t] == v[t]; }
      forall j | 0 <= j < |v[i]| ensures Magnitude(v[i][j]) < bound { assert w[i] == v[i]; }
    }
    if Bounded(v[..i], bound) && PolyBounded(v[i], bound) {
      forall t, j | 0 <= t < |w| && 0 <= j < |w[t]| ensures Magnitude(w[t][j]) < bound {
        if t < i { assert v[..i][t] == v[t]; }
      }
    }
  }

  // ----- transforms of vectors in place

  /** PolyVector::ntt. */
  method NttVector(v: seq<seq<Zq>>, seed: nat) returns (r: seq<seq<Zq>>)
    requires IsVector(v, |v|)
    ensures r == NttAll(v)
  {
    hide Ntt;
    r := [];
    for i := 0 to |v|
      invariant |r| == i && forall t | 0 <= t < i :: r[t] == Ntt(v[t])
    {
      var a := new Zq[N](j requires 0 <= j < N => v[i][j]);
      assert a[..] == v[i];
      NttInPlace(a, seed);
      r := r + [a[..]];
    }
  }

  /** PolyVector::intt. */
  method InttVector(v: seq<seq<Zq>>, seed: nat) returns (r: seq<seq<Zq>>)
    requires IsVector(v, |v|)
    ensures r == InttAll(v)
  {
    hide Intt;
    r := [];
    for i := 0 to |v|
      invariant |r| == i && forall t | 0 <= t < i :: r[t] == Intt(v[t])
    {
      var a := new Zq[N](j requires 0 <= j < N => v[i][j]);
      assert a[..] == v[i];
      InttInPlace(a, seed);
      r := r + [a[..]];
    }
  }
}
