/**
 * Why signatures verify: the verifier's A*z - c*t1*2^13 is w - c*s2 + c*t0, the hint recovers w1
 * from it off one boundary, and the keys that key generation returns fit together.
 */
module MlDsaCompleteness {
  import opened Basics
  import opened Congruence
  import opened MlDsaScalar
  import opened MlDsaNtt
  import opened MlDsaRing
  import opened MlDsaProduct
  import opened MlDsaRounding
  import opened BitPacking
  import opened MlDsaEncoding
  import opened MlDsaVectors
  import opened MlDsaSampling
  import opened MlDsaSigning

  // ----- the verification equation, in the transformed domain

  /** t = t1 * 2^13 + t0, coefficient by coefficient. */
  lemma RoundedCombines(t: seq<Zq>)
    requires |t| == N
    ensures Combines(t, ShiftPoly(HighPoly(t)), LowPoly(t), 1)
  {
    hide Cong, HighPower, LowPower, ToCanonical;
    forall i | 0 <= i < N
      ensures Cong(t[i], Combined(ShiftPoly(HighPoly(t))[i], 1, LowPoly(t)[i]), Q)
    {
      Power2RoundCorrect(t[i]);
      RoundedCoefficient(t[i], HighPower(t[i]), LowPower(t[i]));
    }
  }

  lemma RoundedCoefficient(r: Zq, high: int, low: int)
    requires r == high * D_POW + low
    ensures Cong(r, (D_POW * high) % Q + 1 * ToCanonical(low), Q)
  {
    CongMod(D_POW * high, Q);
    CanonicalCong(low);
    CongAdd((D_POW * high) % Q, D_POW * high, ToCanonical(low), low, Q);
  }

  /** ntt(y + intt(c * s)) = ntt(y) + c * s, slot by slot. */
  lemma MaskedSecret(y: seq<Zq>, c: seq<Zq>, s: seq<Zq>, z: seq<Zq>, i: nat)
    requires |y| == N && |c| == N && |s| == N && i < N && z == AddPoly(y, Intt(Pointwise(c, s)))
    ensures Cong(Ntt(z)[i], Ntt(y)[i] + Times(c[i], s[i]), Q)
  {
    hide Ntt, Intt, SAdd, PointwiseAt, Cong;
    var p := Pointwise(c, s);
    NttAdd(y, Intt(p));
    NttUndoesIntt(p);
    SAddCong(Ntt(y)[i], p[i]);
    PointwiseValue(c[i], s[i]);
    AddSlot(Ntt(z)[i], Ntt(y)[i], p[i], Times(c[i], s[i]));
  }

  /** A * z = A * y + c * (A * s1), slot by slot. */
  lemma RowOfMasked(row: Vector, y: Vector, s1: Vector, c: seq<Zq>, z: Vector, i: nat)
    requires IsVector(row, L) && IsVector(y, L) && IsVector(s1, L) && |c| == N && i < N
    requires z == AddAll(y, ProductAll(c, s1))
    ensures Cong(RowSum(row, NttAll(z), L)[i],
                 Combined(RowSum(row, NttAll(y), L)[i], Ntt(c)[i], RowSum(row, NttAll(s1), L)[i]), Q)
  {
    hide Ntt, Intt, Cong, AddPoly, Pointwise, RowSum;
    forall j | 0 <= j < L
      ensures Cong(NttAll(z)[j][i], NttAll(y)[j][i] + Times(Ntt(c)[i], NttAll(s1)[j][i]), Q)
    {
      MaskedSecret(y[j], Ntt(c), Ntt(s1[j]), z[j], i);
    }
    RowCombines(row, NttAll(z), NttAll(y), NttAll(s1), Ntt(c)[i], i, L);
  }

  /** A * s1 + s2 = t1 * 2^13 + t0, slot by slot. */
  lemma KeyEquation(row: Vector, s1: Vector, s2: seq<Zq>, t: seq<Zq>, i: nat)
    requires IsVector(row, L) && IsVector(s1, L) && |s2| == N && i < N
    requires t == AddPoly(Intt(RowSum(row, NttAll(s1), L)), s2)
    ensures Cong(Combined(RowSum(row, NttAll(s1), L)[i], 1, Ntt(s2)[i]),
                 Combined(Ntt(ShiftPoly(HighPoly(t)))[i], 1, Ntt(LowPoly(t))[i]), Q)
  {
    hide Ntt, Intt, SAdd, RowSum, Cong, HighPoly, LowPoly, ShiftPoly;
    var r := RowSum(row, NttAll(s1), L);
    NttAdd(Intt(r), s2);
    NttUndoesIntt(r);
    SAddCong(r[i], Ntt(s2)[i]);
    RoundedCombines(t);
    NttCombines(t, ShiftPoly(HighPoly(t)), LowPoly(t), 1);
    SameSum(Ntt(t)[i], Combined(r[i], 1, Ntt(s2)[i]),
            Combined(Ntt(ShiftPoly(HighPoly(t)))[i], 1, Ntt(LowPoly(t))[i]));
  }

  lemma SameSum(t: int, a: int, b: int)
    requires Cong(t, a, Q) && Cong(t, b, Q)
    ensures Cong(a, b, Q)
  {}

  /** (Ay + c * As1) - c * t1 = (Ay - c * s2) + c * t0, from As1 + s2 = t1 + t0. */
  lemma SlotEquation(az: int, ay: int, as1: int, c: int, t1: int, t0: int, s2: int, left: int, right: int)
    requires Cong(az, ay + c * as1, Q) && Cong(as1 + s2, t1 + t0, Q)
    requires Cong(left, az - c * t1, Q) && Cong(right, ay - c * s2 + c * t0, Q)
    ensures Cong(left, right, Q)
  {
    CongSub(az, ay + c * as1, c * t1, c * t1, Q);
    CongMulLeft(c, as1 + s2, t1 + t0, Q);
    CongSub(c * (as1 + s2), c * (t1 + t0), c * (t1 + s2), c * (t1 + s2), Q);
    CongAdd(ay, ay, c * (as1 + s2) - c * (t1 + s2), c * (t1 + t0) - c * (t1 + s2), Q);
    SlotRegroup(ay, as1, c, t1, t0, s2);
  }

  lemma SlotRegroup(ay: int, as1: int, c: int, t1: int, t0: int, s2: int)
    ensures ay + c * as1 - c * t1 == ay + (c * (as1 + s2) - c * (t1 + s2))
    ensures ay - c * s2 + c * t0 == ay + (c * (t1 + t0) - c * (t1 + s2))
  {}

  /** A pointwise difference and a pointwise difference-then-sum, as congruences. */
  lemma LeftSlot(a: Zq, c: Zq, t: Zq)
    ensures Cong(SSub(a, PointwiseAt(c, t)), a - Times(c, t), Q)
  {
    hide SSub, PointwiseAt, Cong;
    SSubCong(a, PointwiseAt(c, t));
    PointwiseValue(c, t);
    SubSlot(SSub(a, PointwiseAt(c, t)), a, PointwiseAt(c, t), Times(c, t));
  }

  lemma SubSlot(t: int, s: int, p: int, q: int)
    requires Cong(t, s - p, Q) && Cong(p, q, Q)
    ensures Cong(t, s - q, Q)
  {
    CongSub(s, s, p, q, Q);
  }

  lemma RightSlot(a: Zq, c: Zq, s: Zq, t: Zq)
    ensures Cong(SAdd(SSub(a, PointwiseAt(c, s)), PointwiseAt(c, t)), a - Times(c, s) + Times(c, t), Q)
  {
    hide SSub, SAdd, PointwiseAt, Cong;
    LeftSlot(a, c, s);
    var d := SSub(a, PointwiseAt(c, s));
    SAddCong(d, PointwiseAt(c, t));
    PointwiseValue(c, t);
    AddSlot(SAdd(d, PointwiseAt(c, t)), d, PointwiseAt(c, t), Times(c, t));
    ReplaceFirst(SAdd(d, PointwiseAt(c, t)), d, a - Times(c, s), Times(c, t));
  }

  lemma ReplaceFirst(r: int, d: int, e: int, p: int)
    requires Cong(r, d + p, Q) && Cong(d, e, Q)
    ensures Cong(r, e + p, Q)
  {
    CongAdd(d, e, p, p, Q);
  }

  /** The transform of w - c*s2 + c*t0. */
  lemma TransformOfShifted(ay: seq<Zq>, p: seq<Zq>, q: seq<Zq>)
    requires |ay| == N && |p| == N && |q| == N
    ensures Ntt(AddPoly(SubPoly(Intt(ay), Intt(p)), Intt(q))) == AddPoly(SubPoly(ay, p), q)
  {
    hide Ntt, Intt, AddPoly, SubPoly;
    NttAdd(SubPoly(Intt(ay), Intt(p)), Intt(q));
    NttSub(Intt(ay), Intt(p));
    NttUndoesIntt(ay);
    NttUndoesIntt(p);
    NttUndoesIntt(q);
  }

  /** One row of the verification equation: A*z - c*t1*2^13 = w - c*s2 + c*t0. */
  lemma RowEquation(row: Vector, y: Vector, s1: Vector, s2: seq<Zq>, c: seq<Zq>, z: Vector, t: seq<Zq>)
    requires IsVector(row, L) && IsVector(y, L) && IsVector(s1, L) && |s2| == N && |c| == N
    requires z == AddAll(y, ProductAll(c, s1)) && t == AddPoly(Intt(RowSum(row, NttAll(s1), L)), s2)
    ensures IsVector(z, L)
    ensures Intt(SubPoly(RowSum(row, NttAll(z), L), Pointwise(Ntt(c), Ntt(ShiftPoly(HighPoly(t))))))
            == AddPoly(SubPoly(Intt(RowSum(row, NttAll(y), L)), Intt(Pointwise(Ntt(c), Ntt(s2)))),
                       Intt(Pointwise(Ntt(c), Ntt(LowPoly(t)))))
  {
    hide Ntt, Intt, RowSum, HighPoly, LowPoly, ShiftPoly, SAdd, SSub, PointwiseAt, Cong, ProductAll;
    var az, ay, cHat := RowSum(row, NttAll(z), L), RowSum(row, NttAll(y), L), Ntt(c);
    var t1, t0, s := Ntt(ShiftPoly(HighPoly(t))), Ntt(LowPoly(t)), Ntt(s2);
    var left := SubPoly(az, Pointwise(cHat, t1));
    var right := AddPoly(SubPoly(ay, Pointwise(cHat, s)), Pointwise(cHat, t0));
    forall i | 0 <= i < N
      ensures left[i] == right[i]
    {
      RowOfMasked(row, y, s1, c, z, i);
      KeyEquation(row, s1, s2, t, i);
      LeftSlot(az[i], cHat[i], t1[i]);
      RightSlot(ay[i], cHat[i], s[i], t0[i]);
      SlotEquation(az[i], ay[i], RowSum(row, NttAll(s1), L)[i], cHat[i], t1[i], t0[i], s[i], left[i], right[i]);
      ZqUnique(left[i], right[i]);
    }
    assert left == right;
    var shifted := AddPoly(SubPoly(Intt(ay), Intt(Pointwise(cHat, s))), Intt(Pointwise(cHat, t0)));
    TransformOfShifted(ay, Pointwise(cHat, s), Pointwise(cHat, t0));
    InttUndoesNtt(shifted);
  }

  /** The verification equation for honest z, t1 and t0. */
  lemma VerificationEquation(a: Matrix, y: Vector, s1: Vector, s2: Vector, c: seq<Zq>, z: Vector, r: nat)
    requires IsMatrix(a, K, L) && IsVector(y, L) && IsVector(s1, L) && IsVector(s2, K) && |c| == N && r < K
    requires z == AddAll(y, ProductAll(c, s1))
    ensures IsVector(z, L)
    ensures var t := PublicT(a, s1, s2);
            WApprox(a, z, c, HighAll(t))[r]
            == AddPoly(SubPoly(Apply(a, y)[r], ProductAll(c, s2)[r]), ProductAll(c, LowAll(t))[r])
  {
    hide Ntt, Intt, RowSum, HighPoly, LowPoly, ShiftPoly, AddPoly, SubPoly, Pointwise;
    var t := PublicT(a, s1, s2);
    assert IsVector(a[r], L);
    RowEquation(a[r], y, s1, s2[r], c, z, t[r]);
  }

  // ----- the hint recovers w1

  lemma CentredSum(v: int)
    requires -Q < v < Q
    ensures Cong(ToSigned(ToCanonical(v)), v, Q)
    ensures -(Q - 1) / 2 <= ToSigned(ToCanonical(v)) <= (Q - 1) / 2
    ensures -(Q - 1) / 2 <= v <= (Q - 1) / 2 ==> ToSigned(ToCanonical(v)) == v
  {
    CanonicalCong(v);
    SignedCong(ToCanonical(v));
  }

  /** The centred values the loop computes are the ones their names say. */
  lemma CentredParts(w: Zq, cs2: Zq, ct0: Zq)
    requires -(GAMMA2 - BETA) < DiffAt(w, cs2) < GAMMA2 - BETA && Magnitude(ct0) < GAMMA2
    ensures Cong(DiffAt(w, cs2), LowBits(w) - ToSigned(cs2), Q)
    ensures UAt(w, cs2, ct0) == DiffAt(w, cs2) + ToSigned(ct0)
    ensures -ALPHA + BETA < UAt(w, cs2, ct0) < ALPHA - BETA
  {
    hide LowBits, HighBits;
    DecomposeCorrect(w);
    CentredSum(LowBits(w));
    CentredSum(LowBits(w) - ToSigned(cs2));
    var d := DiffAt(w, cs2);
    CentredSum(d);
    CentredSum(d + ToSigned(ct0));
  }

  /** w - c*s2 + c*t0 = w1 * alpha + u. */
  lemma ShiftedResidue(w: Zq, cs2: Zq, ct0: Zq)
    requires -(GAMMA2 - BETA) < DiffAt(w, cs2) < GAMMA2 - BETA && Magnitude(ct0) < GAMMA2
    ensures Cong(SAdd(SSub(w, cs2), ct0), HighBits(w) * ALPHA + UAt(w, cs2, ct0), Q)
  {
    hide LowBits, HighBits, DiffAt, UAt, SAdd, SSub, ToSigned, Cong;
    CentredParts(w, cs2, ct0);
    DecomposeCorrect(w);
    SSubCong(w, cs2);
    SAddCong(SSub(w, cs2), ct0);
    SignedCong(cs2);
    SignedCong(ct0);
    ResidueSum(w, cs2, ct0, SSub(w, cs2), SAdd(SSub(w, cs2), ct0), HighBits(w), LowBits(w), DiffAt(w, cs2),
               ToSigned(cs2), ToSigned(ct0));
  }

  lemma ResidueSum(w: int, cs2: int, ct0: int, sub: int, sum: int, high: int, low: int, diff: int, s: int, t: int)
    requires Cong(high * ALPHA + low, w, Q) && Cong(sub, w - cs2, Q) && Cong(sum, sub + ct0, Q)
    requires Cong(s, cs2, Q) && Cong(t, ct0, Q) && Cong(diff, low - s, Q)
    ensures Cong(sum, high * ALPHA + (diff + t), Q)
  {
    CongSub(high * ALPHA + low, w, s, cs2, Q);
    CongAdd(high * ALPHA + low - s, sub, t, ct0, Q);
    CongAdd(diff, low - s, high * ALPHA + t, high * ALPHA + t, Q);
  }

  /** A coefficient at which the loop's hint is wrong. */
  ghost predicate AtBoundary(w: Vector, cs2: Vector, ct0: Vector, i: nat, j: nat)
    requires IsVector(w, K) && IsVector(cs2, K) && IsVector(ct0, K) && i < K && j < N
  {
    HintBoundary(UAt(w[i][j], cs2[i][j], ct0[i][j]), HighBits(w[i][j]))
  }

  ghost predicate Boundary(w: Vector, cs2: Vector, ct0: Vector)
    requires IsVector(w, K) && IsVector(cs2, K) && IsVector(ct0, K)
  {
    exists i, j | 0 <= i < K && 0 <= j < N :: AtBoundary(w, cs2, ct0, i, j)
  }

  /** One coefficient: the hint recovers w1 exactly off the boundary. */
  lemma RecoveredAt(w: Zq, cs2: Zq, ct0: Zq)
    requires -(GAMMA2 - BETA) < DiffAt(w, cs2) < GAMMA2 - BETA && Magnitude(ct0) < GAMMA2
    ensures UseHint(LoopHint(UAt(w, cs2, ct0), HighBits(w)), SAdd(SSub(w, cs2), ct0)) == HighBits(w)
            <==> !HintBoundary(UAt(w, cs2, ct0), HighBits(w))
  {
    hide LowBits, HighBits, DiffAt, UAt, SAdd, SSub, UseHint, LoopHint, HintBoundary, Cong;
    CentredParts(w, cs2, ct0);
    ShiftedResidue(w, cs2, ct0);
    DecomposeCorrect(w);
    LoopHintExact(HighBits(w), UAt(w, cs2, ct0), SAdd(SSub(w, cs2), ct0));
  }

  /** The verifier's vector, given as w - c*s2 + c*t0. */
  ghost predicate IsShifted(v: Vector, w: Vector, cs2: Vector, ct0: Vector)
    requires IsVector(w, K) && IsVector(cs2, K) && IsVector(ct0, K)
  {
    IsVector(v, K) && forall i | 0 <= i < K :: v[i] == AddPoly(SubPoly(w[i], cs2[i]), ct0[i])
  }

  lemma RecoveredEntry(v: Vector, w: Vector, cs2: Vector, ct0: Vector, i: nat, j: nat)
    requires IsVector(w, K) && IsVector(cs2, K) && IsVector(ct0, K) && IsShifted(v, w, cs2, ct0) && i < K && j < N
    requires DiffBounded(w, cs2, GAMMA2 - BETA) && Bounded(ct0, GAMMA2)
    ensures UseHintAll(HintAll(w, cs2, ct0), v)[i][j] == HighBitsAll(w)[i][j] <==> !AtBoundary(w, cs2, ct0, i, j)
  {
    hide LowBits, HighBits, DiffAt, UAt, SAdd, SSub, UseHint, LoopHint, HintBoundary, Magnitude;
    assert |ct0[i]| == N;
    RecoveredAt(w[i][j], cs2[i][j], ct0[i][j]);
  }

  /** The recovered high bits are w1 exactly when no coefficient is on the boundary. */
  lemma RecoveredVector(v: Vector, w: Vector, cs2: Vector, ct0: Vector)
    requires IsVector(w, K) && IsVector(cs2, K) && IsVector(ct0, K) && IsShifted(v, w, cs2, ct0)
    requires DiffBounded(w, cs2, GAMMA2 - BETA) && Bounded(ct0, GAMMA2)
    ensures UseHintAll(HintAll(w, cs2, ct0), v) == HighBitsAll(w) <==> !Boundary(w, cs2, ct0)
  {
    hide UseHintAll, HintAll, HighBitsAll, AtBoundary, DiffBounded, Bounded, AddPoly, SubPoly;
    var u, h := UseHintAll(HintAll(w, cs2, ct0), v), HighBitsAll(w);
    forall i, j | 0 <= i < K && 0 <= j < N
      ensures u[i][j] == h[i][j] <==> !AtBoundary(w, cs2, ct0, i, j)
    {
      RecoveredEntry(v, w, cs2, ct0, i, j);
    }
    if !Boundary(w, cs2, ct0) {
      assert forall i | 0 <= i < K :: u[i] == h[i];
    }
  }

  // ----- pack_w1 loses nothing

  ghost predicate Nibbles(v: Vector)
  {
    forall i, j | 0 <= i < |v| && 0 <= j < |v[i]| :: v[i][j] < 16
  }

  lemma {:induction false} PackW1Injective(u: Vector, v: Vector)
    requires IsVector(u, |u|) && IsVector(v, |u|) && Nibbles(u) && Nibbles(v) && PackW1(u) == PackW1(v)
    ensures u == v
    decreases |u|
  {
    hide PackFields, UnpackFields;
    if u != [] {
      var p, q := PackFields(Secret, u[0]), PackFields(Secret, v[0]);
      FieldsRoundTrip(Secret, u[0], 128);
      FieldsRoundTrip(Secret, v[0], 128);
      assert PackW1(u)[..128] == p && PackW1(u)[128..] == PackW1(u[1..]);
      assert PackW1(v)[..128] == q && PackW1(v)[128..] == PackW1(v[1..]);
      PackW1Injective(u[1..], v[1..]);
      assert u == [u[0]] + u[1..] && v == [v[0]] + v[1..];
    }
  }

  lemma HighBitsNibbles(w: Vector)
    requires IsVector(w, |w|)
    ensures Nibbles(HighBitsAll(w))
  {
    hide HighBits;
    forall i, j | 0 <= i < |w| && 0 <= j < N ensures HighBitsAll(w)[i][j] < 16 { DecomposeCorrect(w[i][j]); }
  }

  lemma UseHintNibbles(h: Vector, w: Vector)
    requires IsVector(w, |w|) && IsVector(h, |w|)
    ensures Nibbles(UseHintAll(h, w))
  {
    hide UseHint;
    forall i, j | 0 <= i < |w| && 0 <= j < N ensures UseHintAll(h, w)[i][j] < 16 { UseHintRange(h[i][j], w[i][j]); }
  }

  // ----- what an attempt packs survives packing

  lemma BoundedRepresentable(z: Vector)
    requires IsVector(z, |z|) && Bounded(z, GAMMA1 - BETA)
    ensures VectorRepresentable(Z, z)
  {
    forall i, j | 0 <= i < |z|
      && 0 <= j < N ensures Representable(Z, z[i][j]) { assert Magnitude(z[i][j]) < GAMMA1 - BETA; }
  }

  lemma HighRepresentable(t: Vector)
    requires IsVector(t, |t|)
    ensures VectorRepresentable(T1, HighAll(t))
  {
    hide HighPower;
    forall i, j | 0 <= i < |t|
      && 0 <= j < N ensures Representable(T1, HighAll(t)[i][j]) { Power2RoundCorrect(t[i][j]); }
  }

  lemma LowRepresentable(t: Vector)
    requires IsVector(t, |t|)
    ensures VectorRepresentable(T0, LowAll(t))
  {
    hide LowPower, HighPower;
    forall i, j | 0 <= i < |t| && 0 <= j < N
      ensures Representable(T0, LowAll(t)[i][j])
    {
      Power2RoundCorrect(t[i][j]);
      SignedRoundTrip(LowPower(t[i][j]));
    }
  }

  lemma ShortRepresentable(s: Vector)
    requires IsVector(s, |s|) && ShortVector(s)
    ensures VectorRepresentable(Secret, s)
  {
    forall i, j | 0 <= i < |s| && 0 <= j < N
      ensures Representable(Secret, s[i][j])
    {
      assert Short(s[i]);
      assert Magnitude(s[i][j]) <= 4;
    }
  }

  lemma HintBinary(w: Vector, cs2: Vector, ct0: Vector)
    requires IsVector(w, K) && IsVector(cs2, K) && IsVector(ct0, K)
    ensures forall i | 0 <= i < K :: Binary(HintAll(w, cs2, ct0)[i])
  {
    hide UAt, HighBits, LoopHint;
    forall i, j | 0 <= i < K && 0 <= j < N
      ensures HintAll(w, cs2, ct0)[i][j] == 0 || HintAll(w, cs2, ct0)[i][j] == 1
    {
      LoopHintBinary(UAt(w[i][j], cs2[i][j], ct0[i][j]), HighBits(w[i][j]));
    }
  }

  lemma SignatureSurvives(cTilde: Bytes, z: Vector, w: Vector, cs2: Vector, ct0: Vector)
    requires |cTilde| == 48 && IsVector(z, L) && IsVector(w, K) && IsVector(cs2, K) && IsVector(ct0, K)
    requires Checked(cTilde, z, w, cs2, ct0).Candidate?
    ensures var sig := Checked(cTilde, z, w, cs2, ct0).sig;
            SigAccepted(sig) && SigOf(sig) == Signature(cTilde, z, HintAll(w, cs2, ct0))
  {
    hide HintAll, Listed, Binary, PackSig, SigAccepted, SigOf, DiffBounded, VectorRepresentable;
    BoundedRepresentable(z);
    HintBinary(w, cs2, ct0);
    SigRoundTrip(Signature(cTilde, z, HintAll(w, cs2, ct0)));
  }

  // ----- keys that fit together

  /** t0 is the low part of A*s1 + s2, and tr the hash of the key derived from the high part. */
  ghost predicate Honest(o: Oracles, a: Matrix, key: SecretKey)
  {
    && IsMatrix(a, K, L) && SkShape(key) && ExpandA(o, key.rho) == Some(a)
    && key.t0 == LowAll(PublicT(a, key.s1, key.s2))
    && key.tr == Hash(o, DerivePk(a, key.rho, key.s1, key.s2), 64)
  }

  lemma DerivedKey(a: Matrix, rho: Bytes, s1: Vector, s2: Vector)
    requires IsMatrix(a, K, L) && |rho| == 32 && IsVector(s1, L) && IsVector(s2, K)
    ensures UnpackPk(DerivePk(a, rho, s1, s2)) == PublicKey(rho, HighAll(PublicT(a, s1, s2)))
  {
    hide PublicT, HighAll, PackPk, UnpackPk, VectorRepresentable;
    HighRepresentable(PublicT(a, s1, s2));
    PkRoundTrip(PublicKey(rho, HighAll(PublicT(a, s1, s2))));
  }

  /** What key generation packs is what signing unpacks, and it is honest. */
  lemma KeygenHonest(o: Oracles, seed: Bytes)
    requires Keygen(o, seed).Some?
    ensures var key := UnpackSk(Keygen(o, seed).value.sk);
            var a := ExpandA(o, key.rho);
            && a.Some? && Honest(o, a.value, key) && ShortVector(key.s1) && ShortVector(key.s2)
            && Keygen(o, seed).value.pk == DerivePk(a.value, key.rho, key.s1, key.s2)
  {
    hide DerivePk, PublicT, PackSk, UnpackSk, LowAll, ExpandA, ExpandSecret, Hash, VectorRepresentable, ShortVector;
    var expanded := KeySeeds(o, seed);
    var rho, rhoPrime, k := expanded[..32], expanded[32..96], expanded[96..];
    var a := ExpandA(o, rho).value;
    var s1, s2 := ExpandSecret(o, rhoPrime, 0, L).value, ExpandSecret(o, rhoPrime, L, K).value;
    var t := PublicT(a, s1, s2);
    ShortRepresentable(s1);
    ShortRepresentable(s2);
    LowRepresentable(t);
    SkRoundTrip(SecretKey(rho, k, Hash(o, DerivePk(a, rho, s1, s2), 64), s1, s2, LowAll(t)));
  }

  // ----- completeness

  /** The bytes the verifier hashes for the candidate with commitment w. */
  ghost function Recovered(a: Matrix, key: SecretKey, z: Vector, w: Vector, c: seq<Zq>): Bytes
    requires IsMatrix(a, K, L) && SkShape(key) && IsVector(z, L) && IsVector(w, K) && |c| == N
  {
    hide WApprox, HintAll, ProductAll, PublicT;
    var hint := HintAll(w, ProductAll(c, key.s2), ProductAll(c, key.t0));
    PackW1(UseHintAll(hint, WApprox(a, z, c, HighAll(PublicT(a, key.s1, key.s2)))))
  }

  /** The verifier sees the bytes the signer hashed exactly when no coefficient is on the boundary. */
  lemma RecoveredBytes(o: Oracles, a: Matrix, key: SecretKey, y: Vector, c: seq<Zq>)
    requires Honest(o, a, key) && IsVector(y, L) && |c| == N
    requires DiffBounded(Apply(a, y), ProductAll(c, key.s2), GAMMA2 - BETA)
    requires Bounded(ProductAll(c, key.t0), GAMMA2)
    ensures var w := Apply(a, y);
            Recovered(a, key, AddAll(y, ProductAll(c, key.s1)), w, c) == PackW1(HighBitsAll(w))
            <==> !Boundary(w, ProductAll(c, key.s2), ProductAll(c, key.t0))
  {
    hide WApprox, HintAll, ProductAll, PublicT, Apply, PackW1, DiffBounded, Bounded, Boundary, DerivePk, HighBitsAll,
         UseHintAll, Nibbles, Hash, LowAll, HighAll, AddPoly, SubPoly, ExpandA;
    var w, cs2, ct0 := Apply(a, y), ProductAll(c, key.s2), ProductAll(c, key.t0);
    var z, t1 := AddAll(y, ProductAll(c, key.s1)), HighAll(PublicT(a, key.s1, key.s2));
    var v := WApprox(a, z, c, t1);
    forall r | 0 <= r < K
      ensures v[r] == AddPoly(SubPoly(w[r], cs2[r]), ct0[r])
    {
      VerificationEquation(a, y, key.s1, key.s2, c, z, r);
    }
    RecoveredVector(v, w, cs2, ct0);
    HighBitsNibbles(w);
    UseHintNibbles(HintAll(w, cs2, ct0), v);
    if PackW1(UseHintAll(HintAll(w, cs2, ct0), v)) == PackW1(HighBitsAll(w)) {
      PackW1Injective(UseHintAll(HintAll(w, cs2, ct0), v), HighBitsAll(w));
    }
  }

  /** The quantities of one attempt; None when the challenge is not sampled. */
  datatype Parts = Parts(y: Vector, w: Vector, cTilde: Bytes, c: Option<seq<Zq>>)

  ghost function PartsOf(o: Oracles, a: Matrix, mu: Bytes, rhoPrime: Bytes, kappa: nat): (p: Parts)
    requires IsMatrix(a, K, L)
    ensures IsVector(p.y, L) && IsVector(p.w, K) && |p.cTilde| == 48 && (p.c.Some? ==> |p.c.value| == N)
    ensures p.w == Apply(a, p.y) && p.cTilde == Commitment(o, mu, p.w) && p.c == Sample(o.shake256(p.cTilde), o.draws)
  {
    hide Apply, Commitment, Sample;
    var y := ExpandY(o, rhoPrime, kappa, L);
    var w := Apply(a, y);
    var cTilde := Commitment(o, mu, w);
    Parts(y, w, cTilde, Sample(o.shake256(cTilde), o.draws))
  }

  ghost predicate OnBoundary(o: Oracles, a: Matrix, key: SecretKey, mu: Bytes, rhoPrime: Bytes, kappa: nat)
    requires IsMatrix(a, K, L) && SkShape(key)
  {
    hide Boundary, ProductAll;
    var p := PartsOf(o, a, mu, rhoPrime, kappa);
    p.c.Some? && Boundary(p.w, ProductAll(p.c.value, key.s2), ProductAll(p.c.value, key.t0))
  }

  /**
   * A candidate under an honest key: the verifier decides it by comparing two hashes, of the bytes
   * the signer hashed and of the bytes it recovers, which are equal exactly off the boundary. Off
   * the boundary the signature verifies; on it only a hash collision could make it verify.
   */
  lemma CandidateVerdict(o: Oracles, a: Matrix, key: SecretKey, m: Bytes, rhoPrime: Bytes, kappa: nat)
    returns (signerBytes: Bytes, verifierBytes: Bytes)
    requires Honest(o, a, key) && Try(o, a, key, Mu(o, key.tr, m), rhoPrime, kappa).Candidate?
    ensures signerBytes == PackW1(HighBitsAll(PartsOf(o, a, Mu(o, key.tr, m), rhoPrime, kappa).w))
    ensures signerBytes == verifierBytes <==> !OnBoundary(o, a, key, Mu(o, key.tr, m), rhoPrime, kappa)
    ensures Verify(o, DerivePk(a, key.rho, key.s1, key.s2), m, Try(o, a, key, Mu(o, key.tr, m), rhoPrime, kappa).sig)
            == Some(Hash(o, Mu(o, key.tr, m) + signerBytes, 48) == Hash(o, Mu(o, key.tr, m) + verifierBytes, 48))
  {
    hide WApprox, HintAll, ProductAll, PublicT, Apply, PackW1, DiffBounded, Bounded, Boundary, DerivePk, HighBitsAll,
         UseHintAll, Hash, LowAll, HighAll, AddPoly, SubPoly, ExpandA, Listed, PackSig, SigAccepted, SigOf, Sample,
           UnpackPk, Mu,
         ExpandY;
    var p := PartsOf(o, a, Mu(o, key.tr, m), rhoPrime, kappa);
    var c := p.c.value;
    var z, cs2, ct0 := AddAll(p.y, ProductAll(c, key.s1)), ProductAll(c, key.s2), ProductAll(c, key.t0);
    assert Try(o, a, key, Mu(o, key.tr, m), rhoPrime, kappa) == Checked(p.cTilde, z, p.w, cs2, ct0);
    SignatureSurvives(p.cTilde, z, p.w, cs2, ct0);
    DerivedKey(a, key.rho, key.s1, key.s2);
    RecoveredBytes(o, a, key, p.y, c);
    signerBytes := PackW1(HighBitsAll(p.w));
    verifierBytes := Recovered(a, key, z, p.w, c);
  }

  /** Every candidate off the boundary verifies under the re-derived key. */
  lemma CandidateVerifies(o: Oracles, a: Matrix, key: SecretKey, m: Bytes, rhoPrime: Bytes, kappa: nat)
    requires Honest(o, a, key) && Try(o, a, key, Mu(o, key.tr, m), rhoPrime, kappa).Candidate?
    requires !OnBoundary(o, a, key, Mu(o, key.tr, m), rhoPrime, kappa)
    ensures Verify(o, DerivePk(a, key.rho, key.s1, key.s2), m, Try(o, a, key, Mu(o, key.tr, m), rhoPrime,
            kappa).sig) == Some(true)
  {
    hide Try, OnBoundary, Verify, DerivePk, Mu, Honest, Hash;
    HonestShape(o, a, key);
    var s, v := CandidateVerdict(o, a, key, m, rhoPrime, kappa);
  }

  lemma HonestShape(o: Oracles, a: Matrix, key: SecretKey)
    requires Honest(o, a, key)
    ensures IsMatrix(a, K, L) && SkShape(key)
  {}

  // ----- whole signing runs

  /** Whatever a run releases verifies under the re-derived key and under the stored key, if one is given. */
  lemma {:induction false} ReleasedVerifies(o: Oracles, s: Session, kappa: nat, attempts: nat)
    requires SessionShape(s) && SignFrom(o, s, kappa, attempts).Signed?
    ensures var sig := SignFrom(o, s, kappa, attempts).sig;
            && |sig| == SIG_BYTES && Verify(o, s.pkRec, s.m, sig) == Some(true)
            && (s.stored.Some? ==> Verify(o, s.stored.value, s.m, sig) == Some(true))
    decreases attempts
  {
    hide Try, Verify, SessionShape;
    SessionKeys(s);
    if attempts > 0 {
      var t := Try(o, s.a, s.key, s.mu, s.rhoPrime, kappa);
      if t.Rejected? || (t.Candidate? && Release(o, s, t.sig).None?) {
        ReleasedVerifies(o, s, (kappa + L) % 65536, attempts - 1);
      }
    }
  }

  lemma SessionKeys(s: Session)
    requires SessionShape(s)
    ensures IsMatrix(s.a, K, L) && SkShape(s.key) && |s.pkRec| == PK_BYTES
    ensures s.stored.Some? ==> |s.stored.value| == PK_BYTES
  {}

  /**
   * Under an honest key, verify-before-release only ever repeats an attempt on the boundary: the
   * first candidate off the boundary is the one released.
   */
  lemma FirstCandidateReleased(o: Oracles, a: Matrix, key: SecretKey, m: Bytes, rnd: Bytes, kappa: nat, attempts: nat)
    requires Honest(o, a, key) && attempts > 0
    requires var s := Open(o, a, key, m, rnd, None);
             Try(o, a, key, s.mu, s.rhoPrime, kappa).Candidate? && !OnBoundary(o, a, key, s.mu, s.rhoPrime, kappa)
    ensures var s := Open(o, a, key, m, rnd, None);
            SignFrom(o, s, kappa, attempts) == Signed(Try(o, a, key, s.mu, s.rhoPrime, kappa).sig)
  {
    hide Try, Verify, OnBoundary, Honest, DerivePk, Hash, Mu;
    HonestShape(o, a, key);
    var s := Open(o, a, key, m, rnd, None);
    CandidateVerifies(o, a, key, m, s.rhoPrime, kappa);
  }

  /** Every signature returned under a generated secret key verifies under the generated public key. */
  lemma SignedVerifies(o: Oracles, seed: Bytes, m: Bytes, rnd: Bytes, stored: Option<Bytes>, attempts: nat)
    requires Keygen(o, seed).Some? && (stored.Some? ==> |stored.value| == PK_BYTES)
    requires Sign(o, Keygen(o, seed).value.sk, m, rnd, stored, attempts).Signed?
    ensures var sig := Sign(o, Keygen(o, seed).value.sk, m, rnd, stored, attempts).sig;
            |sig| == SIG_BYTES && Verify(o, Keygen(o, seed).value.pk, m, sig) == Some(true)
  {
    hide Keygen, Verify, SignFrom, DerivePk, Honest, UnpackSk, ExpandA, Hash;
    KeygenHonest(o, seed);
    var key := UnpackSk(Keygen(o, seed).value.sk);
    var a := ExpandA(o, key.rho).value;
    ReleasedVerifies(o, Open(o, a, key, m, rnd, stored), 0, attempts);
  }

  /** With the generated public key stored beside the secret key, the corruption alarm never rings. */
  lemma StoredKeyNeverCorrupted(o: Oracles, seed: Bytes, m: Bytes, rnd: Bytes, attempts: nat)
    requires Keygen(o, seed).Some?
    ensures Sign(o, Keygen(o, seed).value.sk, m, rnd, Some(Keygen(o, seed).value.pk), attempts) != Corrupted
  {
    hide Keygen, Verify, SignFrom, DerivePk, Honest, UnpackSk, ExpandA, Hash;
    KeygenHonest(o, seed);
    var kp := Keygen(o, seed).value;
    var key := UnpackSk(kp.sk);
    var a := ExpandA(o, key.rho).value;
    SameKeyAgrees(o, Open(o, a, key, m, rnd, Some(kp.pk)), 0, attempts);
  }

  lemma {:induction false} SameKeyAgrees(o: Oracles, s: Session, kappa: nat, attempts: nat)
    requires SessionShape(s) && s.stored == Some(s.pkRec)
    ensures SignFrom(o, s, kappa, attempts) != Corrupted
    decreases attempts
  {
    hide Try, Verify, SessionShape;
    SessionKeys(s);
    if attempts > 0 { SameKeyAgrees(o, s, (kappa + L) % 65536, attempts - 1); }
  }

  // ----- the third check cannot fail

  /** The product of a challenge with a packed t0 stays below gamma2: 49 * 4096 = 200704 < 261888. */
  lemma Ct0NeverRejected(c: seq<Zq>, t0: Vector)
    requires IsChallenge(c) && IsVector(t0, K) && VectorRepresentable(T0, t0)
    ensures Bounded(ProductAll(c, t0), GAMMA2)
  {
    hide Ntt, Intt, Pointwise, RingMul, IsChallenge, Magnitude;
    assert |c| == N by { ChallengeShape(c); }
    forall i, j | 0 <= i < K && 0 <= j < N
      ensures Magnitude(ProductAll(c, t0)[i][j]) < GAMMA2
    {
      InttOfPointwise(c, t0[i]);
      forall k | 0 <= k < N ensures Magnitude(t0[i][k]) <= 4096 { LowMagnitude(t0, i, k); }
      ChallengeProductBound(c, t0[i], 4096, j);
    }
  }

  lemma ChallengeShape(c: seq<Zq>)
    requires IsChallenge(c)
    ensures |c| == N
  {}

  lemma LowMagnitude(t0: Vector, i: nat, k: nat)
    requires IsVector(t0, K) && VectorRepresentable(T0, t0) && i < K && k < N
    ensures Magnitude(t0[i][k]) <= 4096
  {
    assert PolyRepresentable(T0, t0[i]);
    assert Representable(T0, t0[i][k]);
  }

  // ----- the public interface

  /** M' = 0 || len(ctx) || ctx || msg. */
  function FormatMessage(msg: Bytes, ctx: Bytes): Bytes
    requires |ctx| <= 255
  {
    [0, |ctx|] + ctx + msg
  }

  /** Message and context are bound separately: the representative determines both. */
  lemma FormatInjective(msg: Bytes, ctx: Bytes, msg': Bytes, ctx': Bytes)
    requires |ctx| <= 255 && |ctx'| <= 255 && FormatMessage(msg, ctx) == FormatMessage(msg', ctx')
    ensures msg == msg' && ctx == ctx'
  {
    var m, m' := FormatMessage(msg, ctx), FormatMessage(msg', ctx');
    assert m[1] == |ctx| && m'[1] == |ctx'|;
    var n := |ctx| + 2;
    assert m[2..n] == ctx && m[n..] == msg;
    assert m'[2..n] == ctx' && m'[n..] == msg';
  }

  /** verify_ctx: a context over 255 bytes is refused. */
  ghost function VerifyCtx(o: Oracles, pk: Bytes, msg: Bytes, sig: Bytes, ctx: Bytes): Option<bool>
    requires |pk| == PK_BYTES && |sig| == SIG_BYTES
  {
    if |ctx| > 255 then Some(false) else Verify(o, pk, FormatMessage(msg, ctx), sig)
  }

  /** sign_hedged followed by verify_ctx under the generated pair accepts. */
  lemma HedgedSignatureVerifies(o: Oracles, seed: Bytes, msg: Bytes, rnd: Bytes, ctx: Bytes, attempts: nat)
    requires Keygen(o, seed).Some? && |ctx| <= 255
    requires Sign(o, Keygen(o, seed).value.sk, FormatMessage(msg, ctx), rnd, None, attempts).Signed?
    ensures var sig := Sign(o, Keygen(o, seed).value.sk, FormatMessage(msg, ctx), rnd, None, attempts).sig;
            |sig| == SIG_BYTES && VerifyCtx(o, Keygen(o, seed).value.pk, msg, sig, ctx) == Some(true)
  {
    hide Keygen, Verify, Sign, FormatMessage;
    SignedVerifies(o, seed, FormatMessage(msg, ctx), rnd, None, attempts);
  }
}
