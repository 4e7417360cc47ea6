/**
 * One pass of the signing loop against the iteration of Algorithm 7 in FIPS 204, section 6.2. The
 * code tests w0 - c*s2 where the standard tests LowBits(w - c*s2), and computes its hint inline
 * where the standard calls MakeHint.
 */
module MlDsaStandard {
  import opened Basics
  import opened Congruence
  import opened MlDsaScalar
  import opened MlDsaNtt
  import opened MlDsaProduct
  import opened MlDsaRounding
  import opened MlDsaEncoding
  import opened MlDsaVectors
  import opened MlDsaSampling
  import opened MlDsaSigning
  import opened MlDsaCompleteness

  // ----- the second check

  /** A residue given as high * alpha + low with low well inside its interval. */
  lemma InnerDecompose(r: Zq, high: int, low: int)
    requires 0 <= high < HIGH_VALUES && -GAMMA2 < low < GAMMA2 && Cong(r, high * ALPHA + low, Q)
    ensures HighBits(r) == high && LowBits(r) == low
  {
    hide HighBits, LowBits;
    var k := CongElim(r, high * ALPHA + low, Q);
    MulAtLeast(k, Q);
    MulAtLeast(k - 1, Q);
    DecomposeOf(r, high, low);
  }

  lemma DifferenceResidue(w: Zq, cs2: Zq, d: int)
    requires Cong(d, LowBits(w) - ToSigned(cs2), Q)
    ensures Cong(SSub(w, cs2), HighBits(w) * ALPHA + d, Q)
  {
    hide LowBits, HighBits, SSub, ToSigned;
    DecomposeCorrect(w);
    SSubCong(w, cs2);
    SignedCong(cs2);
    CongSub(HighBits(w) * ALPHA + LowBits(w), w, ToSigned(cs2), cs2, Q);
    CongAdd(HighBits(w) * ALPHA, HighBits(w) * ALPHA, d, LowBits(w) - ToSigned(cs2), Q);
  }

  /** The centred difference the loop computes. */
  lemma DiffMeaning(w: Zq, cs2: Zq)
    requires Magnitude(cs2) <= BETA
    ensures DiffAt(w, cs2) == LowBits(w) - ToSigned(cs2)
  {
    hide LowBits, HighBits;
    DecomposeCorrect(w);
    CentredSum(LowBits(w));
    CentredSum(LowBits(w) - ToSigned(cs2));
  }

  /**
   * For c*s2 within beta the two tests agree, and then the difference has the high bits of w and
   * the value tested as its low bits.
   */
  lemma SecondCheckAgrees(w: Zq, cs2: Zq)
    requires Magnitude(cs2) <= BETA
    ensures -(GAMMA2 - BETA) < DiffAt(w, cs2) < GAMMA2 - BETA
            <==> -(GAMMA2 - BETA) < LowBits(SSub(w, cs2)) < GAMMA2 - BETA
    ensures -(GAMMA2 - BETA) < DiffAt(w, cs2) < GAMMA2 - BETA
            ==> LowBits(SSub(w, cs2)) == DiffAt(w, cs2) && HighBits(SSub(w, cs2)) == HighBits(w)
  {
    hide LowBits, HighBits, DiffAt, SSub, Cong;
    DiffMeaning(w, cs2);
    DecomposeCorrect(w);
    var r, d := SSub(w, cs2), DiffAt(w, cs2);
    if -(GAMMA2 - BETA) < d < GAMMA2 - BETA {
      Reflexive(d, LowBits(w) - ToSigned(cs2));
      DifferenceResidue(w, cs2, d);
      InnerDecompose(r, HighBits(w), d);
    } else if -(GAMMA2 - BETA) < LowBits(r) < GAMMA2 - BETA {
      DecomposeCorrect(r);
      BackToW(w, cs2, r);
      InnerDecompose(w, HighBits(r), LowBits(r) + ToSigned(cs2));
    }
  }

  lemma BackToW(w: Zq, cs2: Zq, r: Zq)
    requires r == SSub(w, cs2) && Cong(HighBits(r) * ALPHA + LowBits(r), r, Q)
    ensures Cong(w, HighBits(r) * ALPHA + (LowBits(r) + ToSigned(cs2)), Q)
  {
    hide LowBits, HighBits, SSub, ToSigned;
    SSubCong(w, cs2);
    SignedCong(cs2);
    CongAdd(HighBits(r) * ALPHA + LowBits(r), r, ToSigned(cs2), cs2, Q);
    CongAdd(r, w - cs2, cs2, cs2, Q);
  }

  // ----- the hint

  /** MakeHint(-c*t0, w - c*s2 + c*t0) of the standard. */
  function StandardHint(w: Zq, cs2: Zq, ct0: Zq): int
  {
    hide MakeHint, SAdd, SSub, SNeg;
    MakeHint(SAdd(SSub(w, cs2), ct0), SNeg(ct0))
  }

  /** r + -ct0 = w - c*s2, so the hint compares the high bits of r with w1. */
  lemma StandardHintMeaning(w: Zq, cs2: Zq, ct0: Zq)
    ensures StandardHint(w, cs2, ct0) == if HighBits(SAdd(SSub(w, cs2), ct0)) != HighBits(SSub(w, cs2)) then 1 else 0
  {
    hide HighBits, SAdd, SSub, SNeg, Cong;
    var d := SSub(w, cs2);
    var r := SAdd(d, ct0);
    SAddCong(d, ct0);
    SNegCong(ct0);
    SAddCong(r, SNeg(ct0));
    UndoAdd(SAdd(r, SNeg(ct0)), r, SNeg(ct0), d, ct0);
    ZqUnique(SAdd(r, SNeg(ct0)), d);
  }

  lemma UndoAdd(s: int, r: int, n: int, d: int, t: int)
    requires Cong(s, r + n, Q) && Cong(r, d + t, Q) && Cong(n, 0 - t, Q)
    ensures Cong(s, d, Q)
  {
    CongAdd(r, d + t, n, 0 - t, Q);
  }

  /** The high bits move exactly when u leaves (-gamma2, gamma2], the wrapped end aside. */
  lemma HighBitsMove(w1: int, u: int, r: Zq)
    requires 0 <= w1 < HIGH_VALUES && -ALPHA + BETA < u < ALPHA - BETA && Cong(r, w1 * ALPHA + u, Q)
    ensures HighBits(r) == w1 <==> -GAMMA2 < u <= GAMMA2 || (u == -GAMMA2 && w1 == 0)
  {
    var k := CongElim(r, w1 * ALPHA + u, Q);
    MulAtLeast(k + 1, Q);
    MulAtLeast(k - 1, Q);
    assert -1 <= k <= 1;
    MoveCases(w1, u, r, k);
  }

  lemma MoveCases(w1: int, u: int, r: Zq, k: int)
    requires 0 <= w1 < HIGH_VALUES && -ALPHA + BETA < u < ALPHA - BETA && -1 <= k <= 1 && r == w1 * ALPHA + u + k * Q
    ensures HighBits(r) == w1 <==> -GAMMA2 < u <= GAMMA2 || (u == -GAMMA2 && w1 == 0)
  {
    hide HighBits, LowBits;
    if -GAMMA2 < u <= GAMMA2 {
      DecomposeOf(r, w1, u);
    } else if u <= -GAMMA2 {
      if w1 >= 1 { DecomposeOf(r, w1 - 1, u + ALPHA); }
      else if u < -GAMMA2 { WrapBelow(r, u); }
      else { DecomposeAtEnd(r, u); }
    } else {
      if w1 <= 14 { DecomposeOf(r, w1 + 1, u - ALPHA); }
      else { WrapAbove(r, u, k); }
    }
  }

  /** After the checks the loop's bit is the standard's bit if and only if the boundary is avoided. */
  lemma LoopHintIsStandard(w: Zq, cs2: Zq, ct0: Zq)
    requires Magnitude(cs2) <= BETA && Magnitude(ct0) < GAMMA2 && -(GAMMA2 - BETA) < DiffAt(w, cs2) < GAMMA2 - BETA
    ensures LoopHint(UAt(w, cs2, ct0), HighBits(w)) == StandardHint(w, cs2, ct0)
            <==> !HintBoundary(UAt(w, cs2, ct0), HighBits(w))
  {
    hide LowBits, HighBits, DiffAt, UAt, SAdd, SSub, StandardHint, Magnitude, Cong;
    SecondCheckAgrees(w, cs2);
    CentredParts(w, cs2, ct0);
    ShiftedResidue(w, cs2, ct0);
    StandardHintMeaning(w, cs2, ct0);
    DecomposeCorrect(w);
    HighBitsMove(HighBits(w), UAt(w, cs2, ct0), SAdd(SSub(w, cs2), ct0));
  }

  /** A coefficient that passes the checks and sits on the boundary: the two bits differ there. */
  lemma BoundaryWitness()
    ensures var w: Zq, cs2: Zq, ct0: Zq := 593_776, 0, 191_888;
            && Magnitude(cs2) <= BETA && Magnitude(ct0) < GAMMA2 && -(GAMMA2 - BETA) < DiffAt(w, cs2) < GAMMA2 - BETA
            && UAt(w, cs2, ct0) == GAMMA2 && HighBits(w) == 1 && HintBoundary(GAMMA2, 1)
            && LoopHint(UAt(w, cs2, ct0), HighBits(w)) == 1 && StandardHint(w, cs2, ct0) == 0
            && UseHint(1, SAdd(SSub(w, cs2), ct0)) != HighBits(w)
  {
    hide StandardHint;
    var w: Zq, cs2: Zq, ct0: Zq := 593_776, 0, 191_888;
    DivModUnique(593_776, 1, 70_000, ALPHA);
    DivModUnique(785_664, 1, 261_888, ALPHA);
    StandardHintMeaning(w, cs2, ct0);
  }

  // ----- the iteration

  /** The second test in the standard's terms: LowBits(w - c*s2) below the bound. */
  ghost predicate LowBitsBounded(w: Vector, cs2: Vector, bound: int)
    requires IsVector(w, K) && IsVector(cs2, K)
  {
    forall i, j | 0 <= i < K && 0 <= j < N :: -bound < LowBits(SSub(w[i][j], cs2[i][j])) < bound
  }

  lemma StandardHintBit(w: Zq, cs2: Zq, ct0: Zq)
    ensures 0 <= StandardHint(w, cs2, ct0) <= 1
  {}

  function StandardHintPoly(w: seq<Zq>, cs2: seq<Zq>, ct0: seq<Zq>): (r: seq<Zq>)
    requires |w| == |cs2| == |ct0|
    ensures |r| == |w| && forall j | 0 <= j < |w| :: r[j] == StandardHint(w[j], cs2[j], ct0[j])
  {
    hide StandardHint;
    seq(|w|, j requires 0 <= j < |w| => StandardHintBit(w[j], cs2[j], ct0[j]); StandardHint(w[j], cs2[j], ct0[j]) as Zq)
  }

  function StandardHints(w: Vector, cs2: Vector, ct0: Vector): (r: Vector)
    requires IsVector(w, K) && IsVector(cs2, K) && IsVector(ct0, K)
    ensures IsVector(r, K) && forall i | 0 <= i < K :: r[i] == StandardHintPoly(w[i], cs2[i], ct0[i])
  {
    hide StandardHintPoly;
    seq(|w|, i requires 0 <= i < |w| => StandardHintPoly(w[i], cs2[i], ct0[i]))
  }

  /** The iteration of Algorithm 7 after the challenge is drawn. */
  ghost function StandardChecked(cTilde: Bytes, z: Vector, w: Vector, cs2: Vector, ct0: Vector): Attempt
    requires |cTilde| == 48 && IsVector(z, L) && IsVector(w, K) && IsVector(cs2, K) && IsVector(ct0, K)
  {
    hide Listed;
    var hint := StandardHints(w, cs2, ct0);
    if Bounded(z, 524_092) && LowBitsBounded(w, cs2, 261_692) && Bounded(ct0, 261_888) && |Listed(hint, K)| <= 55
    then Candidate(PackSig(Signature(cTilde, z, hint)))
    else Rejected
  }

  ghost predicate WithinBeta(v: Vector)
  {
    forall i, j | 0 <= i < |v| && 0 <= j < |v[i]| :: Magnitude(v[i][j]) <= BETA
  }

  lemma SecondCheckOnVectors(w: Vector, cs2: Vector)
    requires IsVector(w, K) && IsVector(cs2, K) && WithinBeta(cs2)
    ensures DiffBounded(w, cs2, GAMMA2 - BETA) <==> LowBitsBounded(w, cs2, GAMMA2 - BETA)
  {
    hide LowBits, HighBits, DiffAt, SSub, Magnitude;
    forall i, j | 0 <= i < K && 0 <= j < N
      ensures -(GAMMA2 - BETA) < DiffAt(w[i][j], cs2[i][j]) < GAMMA2 - BETA
              <==> -(GAMMA2 - BETA) < LowBits(SSub(w[i][j], cs2[i][j])) < GAMMA2 - BETA
    {
      assert |cs2[i]| == N;
      SecondCheckAgrees(w[i][j], cs2[i][j]);
    }
  }

  /** The hint vectors agree if and only if no coefficient is on the boundary. */
  lemma HintsAgree(w: Vector, cs2: Vector, ct0: Vector)
    requires IsVector(w, K) && IsVector(cs2, K) && IsVector(ct0, K) && WithinBeta(cs2)
    requires DiffBounded(w, cs2, GAMMA2 - BETA) && Bounded(ct0, GAMMA2)
    ensures HintAll(w, cs2, ct0) == StandardHints(w, cs2, ct0) <==> !Boundary(w, cs2, ct0)
  {
    hide HintAll, StandardHints, AtBoundary, WithinBeta, DiffBounded, Bounded, HintPoly, StandardHintPoly;
    var a, b := HintAll(w, cs2, ct0), StandardHints(w, cs2, ct0);
    forall i, j | 0 <= i < K && 0 <= j < N
      ensures |a[i]| == N && |b[i]| == N && (a[i][j] == b[i][j] <==> !AtBoundary(w, cs2, ct0, i, j))
    {
      HintEntryAgrees(w, cs2, ct0, i, j);
    }
    if !Boundary(w, cs2, ct0) {
      assert forall i | 0 <= i < K :: a[i] == b[i];
    }
  }

  lemma HintEntryAgrees(w: Vector, cs2: Vector, ct0: Vector, i: nat, j: nat)
    requires IsVector(w, K) && IsVector(cs2, K) && IsVector(ct0, K) && WithinBeta(cs2) && i < K && j < N
    requires DiffBounded(w, cs2, GAMMA2 - BETA) && Bounded(ct0, GAMMA2)
    ensures HintAll(w, cs2, ct0)[i][j] == StandardHints(w, cs2, ct0)[i][j] <==> !AtBoundary(w, cs2, ct0, i, j)
  {
    hide LowBits, HighBits, DiffAt, UAt, StandardHint, LoopHint, HintBoundary, Magnitude;
    assert |cs2[i]| == N && |ct0[i]| == N;
    LoopHintIsStandard(w[i][j], cs2[i][j], ct0[i][j]);
  }

  /** Off the boundary the code's iteration is the standard's: the same rejections, the same signature. */
  lemma IterationIsStandard(cTilde: Bytes, z: Vector, w: Vector, cs2: Vector, ct0: Vector)
    requires |cTilde| == 48 && IsVector(z, L) && IsVector(w, K) && IsVector(cs2, K) && IsVector(ct0, K)
             && WithinBeta(cs2)
    requires !Boundary(w, cs2, ct0)
    ensures Checked(cTilde, z, w, cs2, ct0) == StandardChecked(cTilde, z, w, cs2, ct0)
  {
    hide Listed, HintAll, StandardHints, Boundary, WithinBeta, DiffBounded, LowBitsBounded, Bounded, PackSig;
    SecondCheckOnVectors(w, cs2);
    if DiffBounded(w, cs2, GAMMA2 - BETA) && Bounded(ct0, GAMMA2) { HintsAgree(w, cs2, ct0); }
  }

  /** Short secrets keep c*s2 within beta. */
  lemma ShortProductWithinBeta(c: seq<Zq>, s2: Vector)
    requires IsChallenge(c) && |c| == N && IsVector(s2, K) && ShortVector(s2)
    ensures WithinBeta(ProductAll(c, s2))
  {
    hide Ntt, Intt, Pointwise, RingMul, IsChallenge, Magnitude;
    forall i, j | 0 <= i < K && 0 <= j < N
      ensures Magnitude(ProductAll(c, s2)[i][j]) <= BETA
    {
      InttOfPointwise(c, s2[i]);
      assert Short(s2[i]);
      ChallengeProductBound(c, s2[i], 4, j);
    }
  }

  /**
   * For a key with short secrets, every pass of the signing loop off the boundary takes the
   * decision of Algorithm 7 and packs the same signature.
   */
  lemma LoopFollowsStandard(o: Oracles, a: Matrix, key: SecretKey, mu: Bytes, rhoPrime: Bytes, kappa: nat)
    requires IsMatrix(a, K, L) && SkShape(key) && ShortVector(key.s2)
    requires var p := PartsOf(o, a, mu, rhoPrime, kappa); p.c.Some? && !OnBoundary(o, a, key, mu, rhoPrime, kappa)
    ensures var p := PartsOf(o, a, mu, rhoPrime, kappa); var c := p.c.value;
            Try(o, a, key, mu, rhoPrime, kappa)
            == StandardChecked(p.cTilde, AddAll(p.y, ProductAll(c, key.s1)), p.w, ProductAll(c, key.s2), ProductAll(c,
              key.t0))
  {
    hide Checked, StandardChecked, Boundary, ProductAll, Apply, Commitment, Sample, WithinBeta, ShortVector,
         IsChallenge, AddPoly,
         ExpandY;
    var p := PartsOf(o, a, mu, rhoPrime, kappa);
    var c := p.c.value;
    SampleIsChallenge(o.shake256(p.cTilde), o.draws);
    ShortProductWithinBeta(c, key.s2);
    IterationIsStandard(p.cTilde, AddAll(p.y, ProductAll(c, key.s1)), p.w, ProductAll(c, key.s2), ProductAll(c,
                        key.t0));
  }
}
