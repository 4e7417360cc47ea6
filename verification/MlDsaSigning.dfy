/**
 * Key generation, signing and verification, after solomon-core/src/crypto/sign.rs and
 * solomon-core/src/crypto/nist_api.rs. The two SHAKE functions are parameters that map an input to
 * an endless byte stream, and a bound on the bytes read turns every sampling loop into a total one.
 */
module MlDsaSigning {
  import opened Basics
  import opened MlDsaScalar
  import opened MlDsaNtt
  import opened MlDsaProduct
  import opened MlDsaRounding
  import opened BitPacking
  import opened MlDsaEncoding
  import opened MlDsaVectors
  import opened MlDsaSampling

  datatype Oracles = Oracles(shake128: Bytes -> Stream, shake256: Bytes -> Stream, draws: nat)

  type Vector = seq<seq<Zq>>
  type Matrix = seq<seq<seq<Zq>>>

  /** n bytes of SHAKE-256. */
  function Hash(o: Oracles, input: Bytes, n: nat): (r: Bytes)
    ensures |r| == n
  {
    Squeeze(o.shake256(input), 0, n)
  }

  function Word16(v: nat): (r: Bytes)
    ensures |r| == 2
  {
    [v % 256, (v / 256) % 256]
  }

  // ----- expansion of seeds

  function ExpandRow(o: Oracles, rho: Bytes, i: Byte, n: nat): (r: Option<Vector>)
    requires n <= L
    ensures r.Some? ==> IsVector(r.value, n)
  {
    if n == 0 then Some([])
    else
      var front := ExpandRow(o, rho, i, n - 1);
      var p := UniformFrom(o.shake128(rho + [n - 1, i]), o.draws, 0, []);
      if front.None? || p.None? then None else Some(front.value + [p.value])
  }

  function ExpandRows(o: Oracles, rho: Bytes, k: nat): (r: Option<Matrix>)
    requires k <= K
    ensures r.Some? ==> IsMatrix(r.value, k, L)
  {
    if k == 0 then Some([])
    else
      var front := ExpandRows(o, rho, k - 1);
      var row := ExpandRow(o, rho, k - 1, L);
      if front.None? || row.None? then None else Some(front.value + [row.value])
  }

  /** expand_a. */
  function ExpandA(o: Oracles, rho: Bytes): (r: Option<Matrix>)
    ensures r.Some? ==> IsMatrix(r.value, K, L)
  {
    ExpandRows(o, rho, K)
  }

  ghost predicate ShortVector(v: Vector)
  {
    forall i | 0 <= i < |v| :: Short(v[i])
  }

  /** n secret polynomials, numbered from base on. */
  function ExpandSecret(o: Oracles, rhoPrime: Bytes, base: nat, n: nat): (r: Option<Vector>)
    ensures r.Some? ==> IsVector(r.value, n) && ShortVector(r.value)
  {
    if n == 0 then Some([])
    else
      var front := ExpandSecret(o, rhoPrime, base, n - 1);
      var p := BoundedFrom(o.shake256(rhoPrime + Word16(base + n - 1)), o.draws, 0, []);
      if front.None? || p.None? then None else Some(front.value + [p.value])
  }

  /** expand_y: polynomial i is unpacked from SHAKE-256(rho' || kappa + i), the counter wrapping at 16 bits. */
  function ExpandY(o: Oracles, rhoPrime: Bytes, kappa: nat, n: nat): (r: Vector)
    ensures IsVector(r, n)
  {
    hide UnpackPoly;
    if n == 0 then []
    else ExpandY(o, rhoPrime, kappa, n - 1)
         + [UnpackPoly(Z, Hash(o, rhoPrime + Word16((kappa + n - 1) % 65536), 640))]
  }

  // ----- coefficient-wise operations

  function HighPoly(p: seq<Zq>): (r: seq<Zq>)
    ensures |r| == |p| && forall i | 0 <= i < |p| :: r[i] == HighPower(p[i])
  {
    seq(|p|, i requires 0 <= i < |p| => Power2RoundCorrect(p[i]); HighPower(p[i]) as Zq)
  }

  function LowPoly(p: seq<Zq>): (r: seq<Zq>)
    ensures |r| == |p| && forall i | 0 <= i < |p| :: r[i] == ToCanonical(LowPower(p[i]))
  {
    seq(|p|, i requires 0 <= i < |p| => Power2RoundCorrect(p[i]); ToCanonical(LowPower(p[i])) as Zq)
  }

  function HighAll(v: Vector): (r: Vector)
    requires IsVector(v, |v|)
    ensures IsVector(r, |v|) && forall i | 0 <= i < |v| :: r[i] == HighPoly(v[i])
  {
    hide HighPoly;
    seq(|v|, i requires 0 <= i < |v| => HighPoly(v[i]))
  }

  function LowAll(v: Vector): (r: Vector)
    requires IsVector(v, |v|)
    ensures IsVector(r, |v|) && forall i | 0 <= i < |v| :: r[i] == LowPoly(v[i])
  {
    hide LowPoly;
    seq(|v|, i requires 0 <= i < |v| => LowPoly(v[i]))
  }

  function HighBitsPoly(p: seq<Zq>): (r: seq<Zq>)
    ensures |r| == |p| && forall i | 0 <= i < |p| :: r[i] == HighBits(p[i])
  {
    hide HighBits;
    seq(|p|, i requires 0 <= i < |p| => DecomposeCorrect(p[i]); HighBits(p[i]) as Zq)
  }

  function HighBitsAll(v: Vector): (r: Vector)
    requires IsVector(v, |v|)
    ensures IsVector(r, |v|) && forall i | 0 <= i < |v| :: r[i] == HighBitsPoly(v[i])
  {
    hide HighBitsPoly;
    seq(|v|, i requires 0 <= i < |v| => HighBitsPoly(v[i]))
  }

  lemma UseHintRange(h: Zq, r: Zq)
    ensures 0 <= UseHint(h, r) < HIGH_VALUES
  {
    hide HighBits, LowBits;
    DecomposeCorrect(r);
  }

  function UseHintPoly(h: seq<Zq>, p: seq<Zq>): (r: seq<Zq>)
    requires |h| == |p|
    ensures |r| == |p| && forall i | 0 <= i < |p| :: r[i] == UseHint(h[i], p[i])
  {
    hide UseHint;
    seq(|p|, i requires 0 <= i < |p| => UseHintRange(h[i], p[i]); UseHint(h[i], p[i]) as Zq)
  }

  function UseHintAll(h: Vector, v: Vector): (r: Vector)
    requires IsVector(v, |v|) && IsVector(h, |v|)
    ensures IsVector(r, |v|) && forall i | 0 <= i < |v| :: r[i] == UseHintPoly(h[i], v[i])
  {
    hide UseHintPoly;
    seq(|v|, i requires 0 <= i < |v| => UseHintPoly(h[i], v[i]))
  }

  function ShiftPoly(p: seq<Zq>): (r: seq<Zq>)
    ensures |r| == |p| && forall i | 0 <= i < |p| :: r[i] == (D_POW * p[i]) % Q
  {
    seq(|p|, i requires 0 <= i < |p| => (D_POW * p[i]) % Q)
  }

  function ShiftAll(v: Vector): (r: Vector)
    requires IsVector(v, |v|)
    ensures IsVector(r, |v|) && forall i | 0 <= i < |v| :: r[i] == ShiftPoly(v[i])
  {
    hide ShiftPoly;
    seq(|v|, i requires 0 <= i < |v| => ShiftPoly(v[i]))
  }

  function SubAll(u: Vector, v: Vector): (r: Vector)
    requires IsVector(u, |u|) && IsVector(v, |u|)
    ensures IsVector(r, |u|) && forall i | 0 <= i < |u| :: r[i] == SubPoly(u[i], v[i])
  {
    hide SubPoly;
    seq(|u|, i requires 0 <= i < |u| => SubPoly(u[i], v[i]))
  }

  /** pack_w1: four bits per coefficient. */
  function PackW1(v: Vector): Bytes
  {
    hide PackFields;
    if v == [] then [] else PackFields(Secret, v[0]) + PackW1(v[1..])
  }

  /** c * v[i] for every i, through the transforms. */
  function ProductAll(c: seq<Zq>, v: Vector): (r: Vector)
    requires |c| == N && IsVector(v, |v|)
    ensures IsVector(r, |v|)
  {
    hide Ntt;
    InttAll(ScaleAll(Ntt(c), NttAll(v)))
  }

  /** A * v, A transformed. */
  function Apply(a: Matrix, v: Vector): (r: Vector)
    requires IsMatrix(a, |a|, |v|) && IsVector(v, |v|)
    ensures IsVector(r, |a|)
  {
    InttAll(MatVec(a, NttAll(v)))
  }

  // ----- keys

  /** t = A * s1 + s2. */
  function PublicT(a: Matrix, s1: Vector, s2: Vector): (t: Vector)
    requires IsMatrix(a, K, L) && IsVector(s1, L) && IsVector(s2, K)
    ensures IsVector(t, K)
  {
    hide Apply;
    AddAll(Apply(a, s1), s2)
  }

  function DerivePk(a: Matrix, rho: Bytes, s1: Vector, s2: Vector): (pk: Bytes)
    requires IsMatrix(a, K, L) && |rho| == 32 && IsVector(s1, L) && IsVector(s2, K)
    ensures |pk| == PK_BYTES
  {
    hide PublicT, PackPk;
    PackPk(PublicKey(rho, HighAll(PublicT(a, s1, s2))))
  }

  datatype KeyPair = KeyPair(sk: Bytes, pk: Bytes)

  function KeySeeds(o: Oracles, seed: Bytes): (r: Bytes)
    ensures |r| == 128
  {
    Hash(o, seed + [6, 5], 128)
  }

  /** keygen; None when a sampling loop reads all its bytes. */
  function Keygen(o: Oracles, seed: Bytes): (r: Option<KeyPair>)
    ensures r.Some? ==> |r.value.sk| == SK_BYTES && |r.value.pk| == PK_BYTES
  {
    hide DerivePk, PublicT, PackSk;
    var expanded := KeySeeds(o, seed);
    var rho, rhoPrime, k := expanded[..32], expanded[32..96], expanded[96..];
    var a := ExpandA(o, rho);
    var s1 := ExpandSecret(o, rhoPrime, 0, L);
    var s2 := ExpandSecret(o, rhoPrime, L, K);
    if a.None? || s1.None? || s2.None? then None
    else
      var pk := DerivePk(a.value, rho, s1.value, s2.value);
      var t0 := LowAll(PublicT(a.value, s1.value, s2.value));
      Some(KeyPair(PackSk(SecretKey(rho, k, Hash(o, pk, 64), s1.value, s2.value, t0)), pk))
  }

  // ----- verification

  /** A * z - c * t1 * 2^13. */
  function WApprox(a: Matrix, z: Vector, c: seq<Zq>, t1: Vector): (r: Vector)
    requires IsMatrix(a, K, L) && IsVector(z, L) && |c| == N && IsVector(t1, K)
    ensures IsVector(r, K)
  {
    hide Ntt, MatVec;
    InttAll(SubAll(MatVec(a, NttAll(z)), ScaleAll(Ntt(c), NttAll(ShiftAll(t1)))))
  }

  /** The message representative. */
  function Mu(o: Oracles, tr: Bytes, m: Bytes): Bytes
  {
    Hash(o, tr + m, 64)
  }

  /** What verify_internal returns; None when a sampling loop does not finish. */
  ghost function Verify(o: Oracles, pk: Bytes, m: Bytes, sig: Bytes): Option<bool>
    requires |pk| == PK_BYTES && |sig| == SIG_BYTES
  {
    hide WApprox, UnpackPk;
    if !SigAccepted(sig) then Some(false)
    else
      var s := SigOf(sig);
      var key := UnpackPk(pk);
      if !Bounded(s.z, GAMMA1 - BETA) then Some(false)
      else
        var a := ExpandA(o, key.rho);
        var c := Sample(o.shake256(s.cTilde), o.draws);
        if a.None? || c.None? then None
        else
          var w1 := UseHintAll(s.h, WApprox(a.value, s.z, c.value, key.t1));
          Some(s.cTilde == Hash(o, Mu(o, Hash(o, pk, 64), m) + PackW1(w1), 48))
  }

  /** verify_internal. */
  method VerifyInternal(o: Oracles, pk: Bytes, m: Bytes, sig: Bytes, shuffle: nat) returns (r: Option<bool>)
    requires |pk| == PK_BYTES && |sig| == SIG_BYTES
    ensures r == Verify(o, pk, m, sig)
  {
    hide UnpackPk, SigAccepted, SigOf, Bounded, Ntt, Intt, MatVec, ExpandA, Sample, UseHintAll, PackW1, Hash;
    var key := UnpackPk(pk);
    var unpacked := UnpackSig(sig);
    if unpacked.None? { return Some(false); }
    var s := unpacked.value;
    var norm := InfNorm(s.z);
    if norm >= GAMMA1 - BETA {
      assert !Bounded(s.z, GAMMA1 - BETA);
      return Some(false);
    }
    assert Bounded(s.z, GAMMA1 - BETA);
    var mu := Mu(o, Hash(o, pk, 64), m);
    var a := ExpandA(o, key.rho);
    var c := SampleInBall(o.shake256(s.cTilde), o.draws);
    if a.None? || c.None? { return None; }
    var zNtt := NttVector(s.z, shuffle);
    var cNtt := NttVector([c.value], shuffle);
    var azNtt := MulVectorNtt(a.value, zNtt);
    var t1Ntt := NttVector(ShiftAll(key.t1), shuffle);
    var wNtt := SubAll(azNtt, ScaleAll(cNtt[0], t1Ntt));
    var w := InttVector(wNtt, shuffle);
    var w1 := UseHintAll(s.h, w);
    return Some(s.cTilde == Hash(o, mu + PackW1(w1), 48));
  }

  // ----- one signing attempt

  /** w0 - c*s2, centred. */
  function DiffAt(w: Zq, cs2: Zq): int
  {
    ToSigned(ToCanonical(ToSigned(ToCanonical(LowBits(w))) - ToSigned(cs2)))
  }

  /** u = w0 - c*s2 + c*t0, centred. */
  function UAt(w: Zq, cs2: Zq, ct0: Zq): int
  {
    ToSigned(ToCanonical(ToSigned(ToCanonical(DiffAt(w, cs2))) + ToSigned(ct0)))
  }

  ghost predicate DiffBounded(w: Vector, cs2: Vector, bound: int)
    requires IsVector(w, K) && IsVector(cs2, K)
  {
    forall i, j | 0 <= i < K && 0 <= j < N :: -bound < DiffAt(w[i][j], cs2[i][j]) < bound
  }

  function HintPoly(w: seq<Zq>, cs2: seq<Zq>, ct0: seq<Zq>): (r: seq<Zq>)
    requires |w| == |cs2| == |ct0|
    ensures |r| == |w| && forall j | 0 <= j < |w| :: r[j] == LoopHint(UAt(w[j], cs2[j], ct0[j]), HighBits(w[j]))
  {
    hide UAt, HighBits;
    seq(|w|, j requires 0 <= j < |w| => LoopHint(UAt(w[j], cs2[j], ct0[j]), HighBits(w[j])))
  }

  function HintAll(w: Vector, cs2: Vector, ct0: Vector): (r: Vector)
    requires IsVector(w, K) && IsVector(cs2, K) && IsVector(ct0, K)
    ensures IsVector(r, K) && forall i | 0 <= i < K :: r[i] == HintPoly(w[i], cs2[i], ct0[i])
  {
    hide HintPoly;
    seq(|w|, i requires 0 <= i < |w| => HintPoly(w[i], cs2[i], ct0[i]))
  }

  datatype Attempt = Stuck | Rejected | Candidate(sig: Bytes)

  /** The four rejection checks, then the packed signature. */
  ghost function Checked(cTilde: Bytes, z: Vector, w: Vector, cs2: Vector, ct0: Vector): (r: Attempt)
    requires |cTilde| == 48 && IsVector(z, L) && IsVector(w, K) && IsVector(cs2, K) && IsVector(ct0, K)
    ensures r.Candidate? ==> |r.sig| == SIG_BYTES
  {
    hide Listed;
    var hint := HintAll(w, cs2, ct0);
    if Bounded(z, GAMMA1 - BETA) && DiffBounded(w, cs2, GAMMA2 - BETA) && Bounded(ct0, GAMMA2)
      && |Listed(hint, K)| <= OMEGA
    then Candidate(PackSig(Signature(cTilde, z, hint)))
    else Rejected
  }

  function Commitment(o: Oracles, mu: Bytes, w: Vector): (r: Bytes)
    requires IsVector(w, |w|)
    ensures |r| == 48
  {
    hide HighBitsAll;
    Hash(o, mu + PackW1(HighBitsAll(w)), 48)
  }

  /** One pass of the signing loop up to pack_sig. */
  ghost function Try(o: Oracles, a: Matrix, key: SecretKey, mu: Bytes, rhoPrime: Bytes, kappa: nat): (r: Attempt)
    requires IsMatrix(a, K, L) && SkShape(key)
    ensures r.Candidate? ==> |r.sig| == SIG_BYTES
  {
    hide ProductAll, Checked, Apply, Commitment;
    var y := ExpandY(o, rhoPrime, kappa, L);
    var w := Apply(a, y);
    var cTilde := Commitment(o, mu, w);
    var c := Sample(o.shake256(cTilde), o.draws);
    if c.None? then Stuck
    else Checked(cTilde, AddAll(y, ProductAll(c.value, key.s1)), w, ProductAll(c.value, key.s2), ProductAll(c.value,
      key.t0))
  }

  // ----- the loops of an attempt

  function Abs(v: int): nat { if v < 0 then 0 - v else v }

  /** The first i rows and the first j entries of row i are within the bound. */
  ghost predicate DiffBoundedTo(w: Vector, cs2: Vector, i: nat, j: nat, bound: int)
    requires IsVector(w, K) && IsVector(cs2, K)
  {
    forall s, t | 0 <= s < K && 0 <= t < N && (s < i || (s == i && t < j)) :: Abs(DiffAt(w[s][t], cs2[s][t])) < bound
  }

  /** The maximum of |w0 - c*s2|: below a bound exactly when every entry is. */
  method MaxDiff(w: Vector, cs2: Vector) returns (max: nat)
    requires IsVector(w, K) && IsVector(cs2, K)
    ensures forall bound | bound > 0 :: max < bound <==> DiffBounded(w, cs2, bound)
  {
    hide DiffAt, DiffBounded, DiffBoundedTo;
    max := 0;
    forall bound | bound > 0 ensures DiffBoundedTo(w, cs2, 0, 0, bound) { DiffStart(w, cs2, bound); }
    for i := 0 to K
      invariant forall bound | bound > 0 :: max < bound <==> DiffBoundedTo(w, cs2, i, 0, bound)
    {
      for j := 0 to N
        invariant forall bound | bound > 0 :: max < bound <==> DiffBoundedTo(w, cs2, i, j, bound)
      {
        ghost var before := max;
        ghost var next := j + 1;
        var diff := DiffAt(w[i][j], cs2[i][j]);
        if Abs(diff) > max { max := Abs(diff); }
        forall bound | bound > 0 ensures max < bound <==> DiffBoundedTo(w, cs2, i, next, bound) {
          assert before < bound <==> DiffBoundedTo(w, cs2, i, j, bound);
          DiffStep(w, cs2, i, j, bound);
        }
      }
      ghost var below := i + 1;
      forall bound | bound > 0 ensures max < bound <==> DiffBoundedTo(w, cs2, below, 0, bound) {
        assert max < bound <==> DiffBoundedTo(w, cs2, i, N, bound);
        DiffRow(w, cs2, i, bound);
      }
    }
    forall bound | bound > 0 ensures max < bound <==> DiffBounded(w, cs2, bound) {
      assert max < bound <==> DiffBoundedTo(w, cs2, K, 0, bound);
      DiffEnd(w, cs2, bound);
    }
  }

  lemma DiffStart(w: Vector, cs2: Vector, bound: int)
    requires IsVector(w, K) && IsVector(cs2, K) && bound > 0
    ensures DiffBoundedTo(w, cs2, 0, 0, bound)
  {}

  lemma DiffStep(w: Vector, cs2: Vector, i: nat, j: nat, bound: int)
    requires IsVector(w, K) && IsVector(cs2, K) && i < K && j < N
    ensures DiffBoundedTo(w, cs2, i, j + 1, bound)
            <==> DiffBoundedTo(w, cs2, i, j, bound) && Abs(DiffAt(w[i][j], cs2[i][j])) < bound
  {
    hide DiffAt, Abs;
  }

  lemma DiffRow(w: Vector, cs2: Vector, i: nat, bound: int)
    requires IsVector(w, K) && IsVector(cs2, K) && i < K
    ensures DiffBoundedTo(w, cs2, i + 1, 0, bound) <==> DiffBoundedTo(w, cs2, i, N, bound)
  {
    hide DiffAt, Abs;
  }

  lemma DiffEnd(w: Vector, cs2: Vector, bound: int)
    requires IsVector(w, K) && IsVector(cs2, K)
    ensures DiffBounded(w, cs2, bound) <==> DiffBoundedTo(w, cs2, K, 0, bound)
  {
    hide DiffAt;
  }

  /** The hint loops, counting the ones. */
  method ComputeHint(w: Vector, cs2: Vector, ct0: Vector) returns (hint: Vector, ones: nat)
    requires IsVector(w, K) && IsVector(cs2, K) && IsVector(ct0, K)
    ensures hint == HintAll(w, cs2, ct0) && ones == |Listed(hint, K)|
  {
    hide UAt, HighBits, Listed, Positions, LoopHint;
    ghost var h := HintAll(w, cs2, ct0);
    hint, ones := [], 0;
    assert Listed(h, 0) == [] by { NothingListed(h); }
    for i := 0 to K
      invariant |hint| == i && (forall t | 0 <= t < i :: hint[t] == h[t]) && ones == |Listed(h, i)|
    {
      var p: seq<Zq> := [];
      for j := 0 to N
        invariant |p| == j && forall t | 0 <= t < j :: p[t] == h[i][t]
        invariant ones + |Positions(h[i], j)| == |Listed(h, i)| + |Positions(h[i], 0)|
      {
        var u := UAt(w[i][j], cs2[i][j], ct0[i][j]);
        var bit := LoopHint(u, HighBits(w[i][j]));
        assert bit == h[i][j];
        LoopHintBinary(u, HighBits(w[i][j]));
        PositionsStep(h[i], j, []);
        p := p + [bit];
        if bit == 1 { ones := ones + 1; }
      }
      PositionsEnd(h[i], []);
      ListedStep(h, i);
      assert p == h[i];
      hint := hint + [p];
    }
    assert hint == h;
  }

  lemma LoopHintBinary(u: int, w1: int)
    ensures LoopHint(u, w1) == 0 || LoopHint(u, w1) == 1
  {}

  /** One pass of the loop body up to pack_sig. */
  method TryOnce(o: Oracles, a: Matrix, key: SecretKey, s1Ntt: Vector, s2Ntt: Vector, t0Ntt: Vector,
                 mu: Bytes, rhoPrime: Bytes, kappa: nat, shuffle: nat) returns (r: Attempt)
    requires IsMatrix(a, K, L) && SkShape(key)
    requires s1Ntt == NttAll(key.s1) && s2Ntt == NttAll(key.s2) && t0Ntt == NttAll(key.t0)
    ensures r == Try(o, a, key, mu, rhoPrime, kappa)
  {
    hide Sample, Bounded, DiffBounded, HintAll, Listed, PackSig, ExpandY, MatVec, Intt, Ntt, Pointwise, Commitment,
         AddPoly;
    var y := ExpandY(o, rhoPrime, kappa, L);
    var yNtt := NttVector(y, shuffle);
    var wNtt := MulVectorNtt(a, yNtt);
    var w := InttVector(wNtt, shuffle);
    var cTilde := Commitment(o, mu, w);
    var c := SampleInBall(o.shake256(cTilde), o.draws);
    if c.None? { return Stuck; }
    var cNtt := NttVector([c.value], shuffle);
    var cs1 := InttVector(ScaleAll(cNtt[0], s1Ntt), shuffle);
    var z := AddAll(y, cs1);
    var zNorm := InfNorm(z);
    assert zNorm < GAMMA1 - BETA <==> Bounded(z, GAMMA1 - BETA);
    if zNorm >= GAMMA1 - BETA { return Rejected; }
    var cs2 := InttVector(ScaleAll(cNtt[0], s2Ntt), shuffle);
    var r0Max := MaxDiff(w, cs2);
    assert r0Max < GAMMA2 - BETA <==> DiffBounded(w, cs2, GAMMA2 - BETA);
    if r0Max >= GAMMA2 - BETA { return Rejected; }
    var ct0 := InttVector(ScaleAll(cNtt[0], t0Ntt), shuffle);
    var ct0Norm := InfNorm(ct0);
    assert ct0Norm < GAMMA2 <==> Bounded(ct0, GAMMA2);
    if ct0Norm >= GAMMA2 { return Rejected; }
    var hint, ones := ComputeHint(w, cs2, ct0);
    if ones > OMEGA { return Rejected; }
    return Candidate(PackSig(Signature(cTilde, z, hint)));
  }

  // ----- the signing loop

  /** NoResult stands for a run that did not finish in the given attempts and bytes. */
  datatype Outcome = NoResult | Signed(sig: Bytes) | Corrupted

  datatype Session = Session(a: Matrix, key: SecretKey, mu: Bytes, rhoPrime: Bytes, pkRec: Bytes, m: Bytes,
    stored: Option<Bytes>)

  predicate SessionShape(s: Session)
  {
    && IsMatrix(s.a, K, L) && SkShape(s.key) && |s.pkRec| == PK_BYTES
    && (s.stored.Some? ==> |s.stored.value| == PK_BYTES)
  }

  /** Verify before release: the candidate counts only if it verifies, and a stored key must agree. */
  ghost function Release(o: Oracles, s: Session, sig: Bytes): Option<Outcome>
    requires SessionShape(s) && |sig| == SIG_BYTES
  {
    hide Verify;
    var own := Verify(o, s.pkRec, s.m, sig);
    if own.None? then Some(NoResult)
    else if !own.value then None
    else if s.stored.None? then Some(Signed(sig))
    else
      var other := Verify(o, s.stored.value, s.m, sig);
      if other.None? then Some(NoResult) else if other.value then Some(Signed(sig)) else Some(Corrupted)
  }

  /** The loop from counter kappa on. */
  ghost function SignFrom(o: Oracles, s: Session, kappa: nat, attempts: nat): Outcome
    requires SessionShape(s)
    decreases attempts
  {
    hide Try, Release;
    if attempts == 0 then NoResult
    else
      var next := SignFrom(o, s, (kappa + L) % 65536, attempts - 1);
      match Try(o, s.a, s.key, s.mu, s.rhoPrime, kappa)
      case Stuck => NoResult
      case Rejected => next
      case Candidate(sig) =>
        var out := Release(o, s, sig);
        if out.None? then next else out.value
  }

  /** The state before the loop. */
  function Open(o: Oracles, a: Matrix, key: SecretKey, m: Bytes, rnd: Bytes, stored: Option<Bytes>): (s: Session)
    requires IsMatrix(a, K, L) && SkShape(key) && (stored.Some? ==> |stored.value| == PK_BYTES)
    ensures SessionShape(s)
  {
    hide DerivePk;
    var mu := Mu(o, key.tr, m);
    Session(a, key, mu, Hash(o, key.k + rnd + mu, 64), DerivePk(a, key.rho, key.s1, key.s2), m, stored)
  }

  ghost function Sign(o: Oracles, sk: Bytes, m: Bytes, rnd: Bytes, stored: Option<Bytes>, attempts: nat): Outcome
    requires |sk| == SK_BYTES && (stored.Some? ==> |stored.value| == PK_BYTES)
  {
    hide SignFrom, Open, UnpackSk;
    var key := UnpackSk(sk);
    var a := ExpandA(o, key.rho);
    if a.None? then NoResult else SignFrom(o, Open(o, a.value, key, m, rnd, stored), 0, attempts)
  }

  /** sign_internal_with_pk, cut off after a number of attempts. */
  method SignInternal(o: Oracles, sk: Bytes, m: Bytes, rnd: Bytes, stored: Option<Bytes>, attempts: nat, shuffle: nat)
    returns (r: Outcome)
    requires |sk| == SK_BYTES && (stored.Some? ==> |stored.value| == PK_BYTES)
    ensures r == Sign(o, sk, m, rnd, stored, attempts)
  {
    hide UnpackSk, Try, Verify, ExpandA, NttAll, DerivePk, SkShape, SessionShape, IsMatrix, IsVector;
    var key := UnpackSk(sk);
    var expanded := ExpandA(o, key.rho);
    if expanded.None? { return NoResult; }
    var a := expanded.value;
    ghost var s := Open(o, a, key, m, rnd, stored);
    SessionParts(o, a, key, m, rnd, stored);
    var mu := Mu(o, key.tr, m);
    var rhoPrime := Hash(o, key.k + rnd + mu, 64);
    var s1Ntt := NttVector(key.s1, shuffle);
    var s2Ntt := NttVector(key.s2, shuffle);
    var t0Ntt := NttVector(key.t0, shuffle);
    var kappa: nat := 0;
    var left := attempts;
    while left > 0
      invariant Sign(o, sk, m, rnd, stored, attempts) == SignFrom(o, s, kappa, left)
    {
      var attempt := TryOnce(o, a, key, s1Ntt, s2Ntt, t0Ntt, mu, rhoPrime, kappa, shuffle);
      kappa := (kappa + L) % 65536;
      left := left - 1;
      match attempt {
        case Stuck => return NoResult;
        case Rejected =>
        case Candidate(sig) =>
          var pkRec := DerivePk(a, key.rho, key.s1, key.s2);
          var own := VerifyInternal(o, pkRec, m, sig, shuffle);
          if own.None? { return NoResult; }
          if own.value {
            if stored.None? { return Signed(sig); }
            var other := VerifyInternal(o, stored.value, m, sig, shuffle);
            if other.None? { return NoResult; }
            return if other.value then Signed(sig) else Corrupted;
          }
      }
    }
    return NoResult;
  }

  lemma SessionParts(o: Oracles, a: Matrix, key: SecretKey, m: Bytes, rnd: Bytes, stored: Option<Bytes>)
    requires IsMatrix(a, K, L) && SkShape(key) && (stored.Some? ==> |stored.value| == PK_BYTES)
    ensures IsVector(key.s1, |key.s1|) && IsVector(key.s2, |key.s2|) && IsVector(key.t0, |key.t0|)
    ensures SessionShape(Open(o, a, key, m, rnd, stored))
    ensures |key.rho| == 32 && IsVector(key.s1, L) && IsVector(key.s2, K)
  {
    hide IsMatrix;
  }
}
