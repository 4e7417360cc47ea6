/**
 * The two transforms undo each other: each stage of one direction undoes the stage of the other up
 * to the factor 2, because the inverse twiddles are the inverses of the forward ones.
 */
module MlDsaRing {
  import opened Congruence
  import opened MlDsaScalar
  import opened ZetaTable
  import opened MlDsaNtt

  // ----- twiddles out of Montgomery form

  /** The root of unity that table entry k stands for. */
  ghost function PlainZeta(k: nat): int
    requires k < 256
  {
    hide Zeta;
    Zeta(k) * MONT_INV
  }

  /** Multiplying by a table entry is multiplying by its root. */
  lemma TwiddleProduct(v: Zq, k: nat)
    requires k < 256
    ensures Cong(SMul(v, Zeta(k)), v * PlainZeta(k), Q)
  {
    hide SMul, Zeta;
    SMulCong(v, Zeta(k));
    MulAssoc(v, Zeta(k), MONT_INV);
  }

  lemma CancelMontgomery(a: int, b: int)
    requires Cong(a, MONT * b, Q)
    ensures Cong(a * MONT_INV, b, Q)
  {
    MontgomeryConstants();
    CongMul(a, MONT * b, MONT_INV, MONT_INV, Q);
    CongMulLeft(b, MONT * MONT_INV, 1, Q);
    assert MONT * b * MONT_INV == b * (MONT * MONT_INV);
  }

  /** The square of a plain root, from the square of its Montgomery form. */
  lemma PlainSquare(z: int, w: int)
    requires Cong(z * z, MONT * w, Q)
    ensures Cong((z * MONT_INV) * (z * MONT_INV), w * MONT_INV, Q)
  {
    CancelMontgomery(z * z, w);
    CongMul(z * z * MONT_INV, w, MONT_INV, MONT_INV, Q);
    MulSwap(z, MONT_INV, z, MONT_INV);
    MulAssoc(z * z, MONT_INV, MONT_INV);
  }

  /** X^s - Modulus(k) is the factor that node k of the splitting tree stands for. */
  ghost function Modulus(k: nat): int
    requires 1 <= k < 512
  {
    hide PlainZeta;
    if k == 1 then -1 else if k % 2 == 0 then PlainZeta(k / 2) else -PlainZeta(k / 2)
  }

  /** The twiddle of a node is a square root of its modulus. */
  lemma ZetaSquares(k: nat)
    requires 1 <= k < 256
    ensures Cong(PlainZeta(k) * PlainZeta(k), Modulus(k), Q)
  {
    hide Zeta;
    if k == 1 {
      FirstSquare();
      MontgomeryConstants();
      PlainSquare(Zeta(1), -MONT);
      assert -MONT * MONT_INV == -(MONT * MONT_INV);
      CongMulLeft(-1, MONT * MONT_INV, 1, Q);
    } else {
      var h := k / 2;
      Squares(h);
      if k % 2 == 0 {
        PlainSquare(Zeta(k), Zeta(h));
      } else {
        assert -(MONT * Zeta(h)) == MONT * (0 - Zeta(h));
        PlainSquare(Zeta(k), 0 - Zeta(h));
      }
    }
  }

  /** The factor the inverse stage uses is the inverse of the forward one. */
  lemma TwiddleInverse(len: nat, nb: nat, b: nat)
    requires StageSize(len, nb) && b < nb
    ensures Cong((Twiddle(false, nb, b) * MONT_INV) * (Twiddle(true, nb, b) * MONT_INV), 1, Q)
  {
    hide Zeta;
    Mirrors(nb + b, nb);
    MirrorInverse(Zeta(nb + b), Zeta(2 * nb - 1 - b));
  }

  lemma MirrorInverse(a: int, b: int)
    requires Cong(a * b, -(MONT * MONT), Q)
    ensures Cong((a * MONT_INV) * ((Q - b) * MONT_INV), 1, Q)
  {
    MontgomeryConstants();
    CongIntro(a * (Q - b), -(a * b), a, Q);
    assert a * (Q - b) == -(a * b) + a * Q;
    CongMulLeft(-1, a * b, -(MONT * MONT), Q);
    assert Cong(a * (Q - b), MONT * MONT, Q);
    MulSwap(a, MONT_INV, Q - b, MONT_INV);
    CongMul(a * (Q - b), MONT * MONT, MONT_INV * MONT_INV, MONT_INV * MONT_INV, Q);
    MulSwap(MONT, MONT, MONT_INV, MONT_INV);
    CongMul(MONT * MONT_INV, 1, MONT * MONT_INV, 1, Q);
  }

  // ----- a stage back undoes a stage forward, and conversely, up to the factor 2

  ghost predicate ScaledBy(z: seq<Zq>, y: seq<Zq>, c: int)
  {
    |z| == |y| && forall i | 0 <= i < |y| :: Cong(z[i], c * y[i], Q)
  }

  /** One direction's butterfly applied to c times the other direction's is 2 * c. */
  lemma ButterflyUndone(inverse: bool, u: Zq, v: Zq, z: Zq, z': Zq, c: int, a: Zq, b: Zq)
    requires Cong((z * MONT_INV) * (z' * MONT_INV), 1, Q)
    requires Cong(a, c * Low(inverse, u, v, z), Q) && Cong(b, c * High(inverse, u, v, z), Q)
    ensures Cong(Low(!inverse, a, b, z'), (2 * c) * u, Q)
    ensures Cong(High(!inverse, a, b, z'), (2 * c) * v, Q)
  {
    hide SMul, SAdd, SSub, Cong;
    var t, t' := z * MONT_INV, z' * MONT_INV;
    if inverse {
      SAddCong(u, v);
      SSubCong(u, v);
      SMulCong(SSub(u, v), z);
      MulAssoc(SSub(u, v), z, MONT_INV);
      SMulCong(b, z');
      MulAssoc(b, z', MONT_INV);
      SAddCong(a, SMul(b, z'));
      SSubCong(a, SMul(b, z'));
      UndoGentlemanSande(a, b, c, u, v, t, t', SAdd(u, v), SSub(u, v), SMul(SSub(u, v), z), SMul(b, z'),
                         SAdd(a, SMul(b, z')), SSub(a, SMul(b, z')));
    } else {
      SMulCong(v, z);
      MulAssoc(v, z, MONT_INV);
      SAddCong(u, SMul(v, z));
      SSubCong(u, SMul(v, z));
      SAddCong(a, b);
      SSubCong(a, b);
      SMulCong(SSub(a, b), z');
      MulAssoc(SSub(a, b), z', MONT_INV);
      UndoCooleyTukey(a, b, c, u, v, t, t', SMul(v, z), SAdd(u, SMul(v, z)), SSub(u, SMul(v, z)),
                      SAdd(a, b), SSub(a, b), SMul(SSub(a, b), z'));
    }
  }

  lemma UndoGentlemanSande(a: int, b: int, c: int, u: int, v: int, t: int, t': int,
                           s: int, d: int, m: int, n: int, sum: int, diff: int)
    requires Cong(t * t', 1, Q) && Cong(a, c * s, Q) && Cong(b, c * m, Q)
    requires Cong(s, u + v, Q) && Cong(d, u - v, Q) && Cong(m, d * t, Q) && Cong(n, b * t', Q)
    requires Cong(sum, a + n, Q) && Cong(diff, a - n, Q)
    ensures Cong(sum, (2 * c) * u, Q) && Cong(diff, (2 * c) * v, Q)
  {
    CongMulLeft(c, s, u + v, Q);
    DifferencePart(b, c, m, d, u - v, t, t', n);
    CongAdd(a, c * (u + v), n, c * (u - v), Q);
    CongSub(a, c * (u + v), n, c * (u - v), Q);
    SumAndDifference(c, u, v);
  }

  lemma SumAndDifference(c: int, u: int, v: int)
    ensures c * (u + v) + c * (u - v) == (2 * c) * u
    ensures c * (u + v) - c * (u - v) == (2 * c) * v
  {}

  lemma DifferencePart(b: int, c: int, m: int, d: int, e: int, t: int, t': int, n: int)
    requires Cong(t * t', 1, Q) && Cong(b, c * m, Q) && Cong(m, d * t, Q) && Cong(d, e, Q) && Cong(n, b * t', Q)
    ensures Cong(n, c * e, Q)
  {
    CongMul(d, e, t, t, Q);
    CongMulLeft(c, m, e * t, Q);
    CongMul(b, c * (e * t), t', t', Q);
    CongMulLeft(c * e, t * t', 1, Q);
    assert c * (e * t) * t' == (c * e) * (t * t');
  }

  lemma UndoCooleyTukey(a: int, b: int, c: int, u: int, v: int, t: int, t': int,
                        m: int, s: int, d: int, sum: int, diff: int, n: int)
    requires Cong(t * t', 1, Q) && Cong(m, v * t, Q) && Cong(s, u + m, Q) && Cong(d, u - m, Q)
    requires Cong(a, c * s, Q) && Cong(b, c * d, Q)
    requires Cong(sum, a + b, Q) && Cong(diff, a - b, Q) && Cong(n, diff * t', Q)
    ensures Cong(sum, (2 * c) * u, Q) && Cong(n, (2 * c) * v, Q)
  {
    CongMulLeft(c, s, u + m, Q);
    CongMulLeft(c, d, u - m, Q);
    CongAdd(a, c * (u + m), b, c * (u - m), Q);
    CongSub(a, c * (u + m), b, c * (u - m), Q);
    SumAndDifference(c, u, m);
    CongMulLeft(2 * c, m, v * t, Q);
    CongMul(diff, (2 * c) * (v * t), t', t', Q);
    CongMulLeft((2 * c) * v, t * t', 1, Q);
    assert (2 * c) * (v * t) * t' == ((2 * c) * v) * (t * t');
  }

  lemma StageUndone(inverse: bool, y: seq<Zq>, z: seq<Zq>, len: nat, nb: nat, c: int)
    requires StageSize(len, nb) && |y| == |z| == N
    requires ScaledBy(z, Stage(inverse, y, len, nb), c)
    ensures ScaledBy(Stage(!inverse, z, len, nb), y, 2 * c)
  {
    hide Stage, StageAt, Cong;
    forall i | 0 <= i < N
      ensures Cong(Stage(!inverse, z, len, nb)[i], (2 * c) * y[i], Q)
    {
      StageUndoneAt(inverse, y, z, len, nb, c, i);
    }
  }

  /** The two values a butterfly writes. */
  lemma StagePair(inverse: bool, p: seq<Zq>, len: nat, nb: nat, j: nat)
    requires StageSize(len, nb) && |p| == N && j < N && len > 0 && (j / len) % 2 == 0
    ensures j + len < N && (j / len) / 2 < nb <= 128
    ensures StageAt(inverse, p, len, nb, j) == Low(inverse, p[j], p[j + len], Twiddle(inverse, nb, (j / len) / 2))
    ensures StageAt(inverse, p, len, nb, j + len)
            == High(inverse, p[j], p[j + len], Twiddle(inverse, nb, (j / len) / 2))
  {
    hide Low, High, Twiddle;
    RowLayout(j, len, nb);
    RowLayout(j + len, len, nb);
  }

  /** The lower partner of position i. */
  lemma LowerPartner(i: nat, len: nat, nb: nat) returns (j: nat)
    requires StageSize(len, nb) && i < N
    ensures len > 0 && j + len < N && (j / len) % 2 == 0 && (i == j || i == j + len)
  {
    RowLayout(i, len, nb);
    j := if (i / len) % 2 == 0 then i else i - len;
    RowLayout(j, len, nb);
  }

  lemma StageUndoneAt(inverse: bool, y: seq<Zq>, z: seq<Zq>, len: nat, nb: nat, c: int, i: nat)
    requires StageSize(len, nb) && |y| == |z| == N && i < N
    requires ScaledBy(z, Stage(inverse, y, len, nb), c)
    ensures Cong(StageAt(!inverse, z, len, nb, i), (2 * c) * y[i], Q)
  {
    hide Stage, StageAt, Low, High, Twiddle, StageSize, Cong;
    var j := LowerPartner(i, len, nb);
    StagePair(inverse, y, len, nb, j);
    StagePair(!inverse, z, len, nb, j);
    var b := (j / len) / 2;
    var t, t' := Twiddle(inverse, nb, b), Twiddle(!inverse, nb, b);
    TwiddlesCancel(inverse, len, nb, b);
    var g := Stage(inverse, y, len, nb);
    assert Cong(z[j], c * g[j], Q) && Cong(z[j + len], c * g[j + len], Q);
    ButterflyUndone(inverse, y[j], y[j + len], t, t', c, z[j], z[j + len]);
  }

  lemma TwiddlesCancel(inverse: bool, len: nat, nb: nat, b: nat)
    requires StageSize(len, nb) && b < nb <= 128
    ensures Cong((Twiddle(inverse, nb, b) * MONT_INV) * (Twiddle(!inverse, nb, b) * MONT_INV), 1, Q)
  {
    hide Twiddle;
    TwiddleInverse(len, nb, b);
    var t, t' := Twiddle(inverse, nb, b) * MONT_INV, Twiddle(!inverse, nb, b) * MONT_INV;
    assert t * t' == t' * t;
  }

  lemma {:induction false} BackwardUndoesForward(p: seq<Zq>, z: seq<Zq>, k: nat)
    requires |p| == |z| == N && k <= 8 && ScaledBy(z, Forward(p, 8), 1)
    ensures ScaledBy(Backward(z, k), Forward(p, 8 - k), Pow(2, k))
  {
    hide ScaledBy, Stage, StageSize, Backward, Forward;
    FirstStages(z);
    if k > 0 {
      BackwardUndoesForward(p, z, k - 1);
      BackwardStep(z, k - 1);
      ForwardStep(p, 8 - k);
      StageUndone(false, Forward(p, 8 - k), Backward(z, k - 1), Len(k - 1), Blocks(k - 1), Pow(2, k - 1));
    }
  }

  lemma {:induction false} ForwardUndoesBackward(p: seq<Zq>, z: seq<Zq>, c: int, k: nat)
    requires |p| == |z| == N && k <= 8 && ScaledBy(z, Backward(p, 8), c)
    ensures ScaledBy(Forward(z, k), Backward(p, 8 - k), Pow(2, k) * c)
  {
    hide ScaledBy, Stage, StageSize, Backward, Forward;
    FirstStages(z);
    if k > 0 {
      ForwardUndoesBackward(p, z, c, k - 1);
      ForwardStep(z, k - 1);
      BackwardStep(p, 8 - k);
      StageUndone(true, Backward(p, 8 - k), Forward(z, k - 1), Len(8 - k), Blocks(8 - k), Pow(2, k - 1) * c);
      MulAssoc(2, Pow(2, k - 1), c);
    } else {
      assert Pow(2, 0) * c == c;
    }
  }

  /** 256^-1 modulo q. */
  const INV_N: int := 8_347_681

  /** The scale factor: 16382 is 2^32 / 256, so scaling divides by 256. */
  lemma ScaleFactor(v: Zq)
    ensures Cong(256 * SMul(v, INV_N_MONT), v, Q)
  {
    hide SMul;
    SMulCong(v, INV_N_MONT);
    CongMulLeft(256, SMul(v, INV_N_MONT), v * INV_N_MONT * MONT_INV, Q);
    assert 256 * 16382 * MONT_INV == 1 + 4_136_447 * Q;
    CongIntro(256 * 16382 * MONT_INV, 1, 4_136_447, Q);
    CongMulLeft(v, 256 * 16382 * MONT_INV, 1, Q);
    assert 256 * (v * 16382 * MONT_INV) == v * (256 * 16382 * MONT_INV);
  }

  lemma ScaledCongruent(y: seq<Zq>, z: seq<Zq>)
    requires ScaledBy(z, y, 1)
    ensures z == y
  {
    forall i | 0 <= i < |y| ensures z[i] == y[i] { ZqUnique(z[i], y[i]); }
  }

  /** intt(ntt(p)) = p. */
  lemma InttUndoesNtt(p: seq<Zq>)
    requires |p| == N
    ensures Intt(Ntt(p)) == p
  {
    hide SMul, Forward, Backward, Cong, ScalePoly;
    var y := Ntt(p);
    IdentityScaled(y);
    BackwardUndoesForward(p, y, 8);
    FirstStages(p);
    var b := Backward(y, 8);
    forall i | 0 <= i < N
      ensures Intt(y)[i] == p[i]
    {
      UndoFactor(b[i], p[i]);
    }
  }

  lemma IdentityScaled(y: seq<Zq>)
    ensures ScaledBy(y, y, 1)
  {}

  lemma UndoFactor(b: Zq, p: Zq)
    requires Cong(b, Pow(2, 8) * p, Q)
    ensures SMul(b, INV_N_MONT) == p
  {
    hide SMul;
    assert Pow(2, 8) == 256;
    var s := SMul(b, INV_N_MONT);
    ScaleFactor(b);
    CancelFactor(s, p);
    ZqUnique(s, p);
  }

  /** 256 is invertible modulo q. */
  lemma CancelFactor(a: int, b: int)
    requires Cong(256 * a, 256 * b, Q)
    ensures Cong(a, b, Q)
  {
    assert INV_N * 256 == 1 + 255 * Q;
    CongIntro(INV_N * 256, 1, 255, Q);
    CongMulLeft(INV_N, 256 * a, 256 * b, Q);
    CongMulLeft(a, INV_N * 256, 1, Q);
    CongMulLeft(b, INV_N * 256, 1, Q);
    assert INV_N * (256 * a) == a * (INV_N * 256) && INV_N * (256 * b) == b * (INV_N * 256);
  }

  /** ntt(intt(p)) = p. */
  lemma NttUndoesIntt(p: seq<Zq>)
    requires |p| == N
    ensures Ntt(Intt(p)) == p
  {
    hide SMul, Forward, Backward, Cong, ScalePoly;
    var z := Intt(p);
    ScalePolyScales(Backward(p, 8));
    ForwardUndoesBackward(p, z, INV_N, 8);
    FirstStages(p);
    UnitFactor(Ntt(z), p);
    ScaledCongruent(p, Ntt(z));
  }

  lemma ScalePolyScales(b: seq<Zq>)
    ensures ScaledBy(ScalePoly(b, INV_N_MONT), b, INV_N)
  {
    hide SMul, Cong, ScalePoly;
    forall i | 0 <= i < |b|
      ensures Cong(ScalePoly(b, INV_N_MONT)[i], INV_N * b[i], Q)
    {
      ScaledValue(b[i]);
    }
  }

  lemma ScaledValue(v: Zq)
    ensures Cong(SMul(v, INV_N_MONT), INV_N * v, Q)
  {
    hide SMul;
    ScaleFactor(v);
    var s: int := SMul(v, INV_N_MONT);
    CongMulLeft(INV_N, 256 * s, v, Q);
    CongIntro(INV_N * 256, 1, 255, Q);
    CongMulLeft(s, INV_N * 256, 1, Q);
    assert INV_N * (256 * s) == s * (INV_N * 256);
  }

  lemma UnitFactor(z: seq<Zq>, p: seq<Zq>)
    requires ScaledBy(z, p, Pow(2, 8) * INV_N)
    ensures ScaledBy(z, p, 1)
  {
    assert Pow(2, 8) == 256;
    CongIntro(256 * INV_N, 1, 255, Q);
    forall i | 0 <= i < |p|
      ensures Cong(z[i], 1 * p[i], Q)
    {
      CongMul(256 * INV_N, 1, p[i], p[i], Q);
    }
  }
}
