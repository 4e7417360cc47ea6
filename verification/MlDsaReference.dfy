/**
 * Key generation, verification and one signing attempt of solomon-core/src/crypto/sign.rs in the
 * terms of FIPS 204: ring products instead of transforms, hash inputs byte by byte, bounds written
 * out. And what a signature binds: one public key and one message, short of a hash collision.
 */
module MlDsaReference {
  import opened Basics
  import opened Congruence
  import opened Numerals
  import opened MlDsaScalar
  import opened MlDsaNtt
  import opened MlDsaRing
  import opened MlDsaProduct
  import opened MlDsaRounding
  import opened BitPacking
  import opened MlDsaEncoding
  import opened MlDsaVectors
  import opened MlDsaSampling
  import opened MlDsaSigning
  import opened MlDsaCompleteness
  import opened MlDsaLayout
  import opened MlDsaExpansion

  /** x is a followed by b. */
  ghost predicate Joined(x: Bytes, a: Bytes, b: Bytes)
  {
    |x| == |a| + |b| && x[..|a|] == a && x[|a|..] == b
  }

  lemma JoinedIs(x: Bytes, a: Bytes, b: Bytes)
    requires Joined(x, a, b)
    ensures x == a + b
  {
    assert x == x[..|a|] + x[|a|..];
  }

  // ----- the ring

  /** Row i of A * v. */
  ghost function RowTimes(a: Matrix, v: Vector, i: nat): (r: seq<Zq>)
    requires IsMatrix(a, |a|, |v|) && IsVector(v, |v|) && i < |a|
    ensures |r| == N
  {
    RingRow(InttAll(a[i]), v, |v|)
  }

  lemma ApplyIsRing(a: Matrix, v: Vector, i: nat)
    requires IsMatrix(a, |a|, |v|) && IsVector(v, |v|) && i < |a|
    ensures Apply(a, v)[i] == RowTimes(a, v, i) && MatVec(a, NttAll(v))[i] == Ntt(RowTimes(a, v, i))
  {
    hide RowSum, RingRow, Ntt, Intt;
    MatVecIsRingProduct(a, v, i);
    NttUndoesIntt(MatVec(a, NttAll(v))[i]);
  }

  lemma ProductIsRing(c: seq<Zq>, v: Vector, i: nat)
    requires |c| == N && IsVector(v, |v|) && i < |v|
    ensures ProductAll(c, v)[i] == RingMul(c, v[i])
  {
    hide Ntt, Intt, Pointwise, RingMul;
    InttOfPointwise(c, v[i]);
  }

  /** A coefficient times 2^13. */
  ghost function TimesPower(c: int): (r: Zq) { (8192 * c) % 8_380_417 }

  ghost function Shifted(p: seq<Zq>): (r: seq<Zq>)
    ensures |r| == |p| && forall j | 0 <= j < |p| :: r[j] == TimesPower(p[j])
  {
    seq(|p|, j requires 0 <= j < |p| => TimesPower(p[j]))
  }

  /** Row i of A * z - c * t1 * 2^13. */
  ghost function Residue(a: Matrix, z: Vector, c: seq<Zq>, t1: Vector, i: nat): (r: seq<Zq>)
    requires IsMatrix(a, 6, 5) && IsVector(z, 5) && |c| == N && IsVector(t1, 6) && i < 6
    ensures |r| == N
  {
    hide RowTimes, RingMul, SubPoly;
    SubPoly(RowTimes(a, z, i), RingMul(c, Shifted(t1[i])))
  }

  lemma ResidueIs(a: Matrix, z: Vector, c: seq<Zq>, t1: Vector, i: nat)
    requires IsMatrix(a, 6, 5) && IsVector(z, 5) && |c| == N && IsVector(t1, 6) && i < 6
    ensures WApprox(a, z, c, t1)[i] == Residue(a, z, c, t1, i)
  {
    hide Ntt, Intt, MatVec, RowTimes, RingMul, SubPoly, Pointwise;
    var s := ShiftPoly(t1[i]);
    assert s == Shifted(t1[i]);
    ApplyIsRing(a, z, i);
    NttOfProduct(c, s);
    NttSub(RowTimes(a, z, i), RingMul(c, s));
    InttUndoesNtt(Residue(a, z, c, t1, i));
  }

  // ----- the bytes that are hashed

  /** The high bits of a polynomial, with or without hints. */
  ghost function HighDigits(w: seq<Zq>): (r: seq<int>)
    ensures |r| == |w| && forall j | 0 <= j < |w| :: r[j] == HighBits(w[j])
  {
    seq(|w|, j requires 0 <= j < |w| => HighBits(w[j]))
  }

  ghost function HintedDigits(h: seq<Zq>, w: seq<Zq>): (r: seq<int>)
    requires |h| == |w|
    ensures |r| == |w| && forall j | 0 <= j < |w| :: r[j] == UseHint(h[j], w[j])
  {
    seq(|w|, j requires 0 <= j < |w| => UseHint(h[j], w[j]))
  }

  /** b starts with mu; then come n polynomials of 128 bytes, the i-th with the digits of v[i] in base 16. */
  ghost predicate Commits(b: Bytes, mu: Bytes, v: seq<seq<int>>)
  {
    && |b| == 64 + 128 * |v| && b[..64] == mu
    && forall i | 0 <= i < |v| :: Spells(Chunk(b, 64 + 128 * i, 128), v[i], 16)
  }

  lemma {:induction false} PackedW1(b: Bytes, v: Vector)
    requires IsVector(v, |v|) && Nibbles(v) && |b| == 128 * |v|
    requires forall i | 0 <= i < |v| :: Spells(Chunk(b, 128 * i, 128), v[i], 16)
    ensures b == PackW1(v)
    decreases |v|
  {
    hide PackFields, Spells;
    if v != [] {
      var front, rest := b[..128], b[128..];
      assert b == front + rest;
      FirstPacked(b, v);
      forall i | 0 <= i < |v[1..]|
        ensures Spells(Chunk(rest, 128 * i, 128), v[1..][i], 16)
      {
        var next := i + 1;
        assert Spells(Chunk(b, 128 * next, 128), v[next], 16);
        LaterChunk(front, rest, 128 * i, 128);
      }
      PackedW1(rest, v[1..]);
    }
  }

  lemma FirstPacked(b: Bytes, v: Vector)
    requires IsVector(v, |v|) && Nibbles(v) && v != [] && |b| >= 128 && Spells(Chunk(b, 128 * 0, 128), v[0], 16)
    ensures b[..128] == PackFields(Secret, v[0])
  {
    hide PackFields, UnpackFields, Number;
    assert |v[0]| == N && Fields(Secret, v[0]);
    FieldsRoundTrip(Secret, v[0], 128);
    FieldsNumber(Secret, v[0], 128);
    NumberInjective(b[..128], PackFields(Secret, v[0]), 256);
  }

  lemma CommittedBytes(b: Bytes, mu: Bytes, v: Vector)
    requires IsVector(v, |v|) && Nibbles(v) && Commits(b, mu, v)
    ensures b == mu + PackW1(v)
  {
    hide PackW1, Spells, Chunk, Nibbles;
    var rest := b[64..];
    assert b == b[..64] + rest;
    forall i | 0 <= i < |v|
      ensures Spells(Chunk(rest, 128 * i, 128), v[i], 16)
    {
      LaterChunk(b[..64], rest, 128 * i, 128);
    }
    PackedW1(rest, v);
  }

  // ----- verification

  /** Every coefficient is below the bound in absolute value. */
  ghost predicate Small(v: Vector, bound: int)
  {
    forall i, j | 0 <= i < |v| && 0 <= j < |v[i]| :: -bound < ToSigned(v[i][j]) < bound
  }

  lemma SmallIsBounded(v: Vector, bound: int)
    ensures Small(v, bound) <==> Bounded(v, bound)
  {
    hide ToSigned;
    if Bounded(v, bound) {
      forall i, j | 0 <= i < |v| && 0 <= j < |v[i]|
        ensures -bound < ToSigned(v[i][j]) < bound
      {
        assert Magnitude(v[i][j]) < bound;
      }
    }
    if Small(v, bound) {
      forall i, j | 0 <= i < |v| && 0 <= j < |v[i]|
        ensures Magnitude(v[i][j]) < bound
      {
        assert -bound < ToSigned(v[i][j]) < bound;
      }
    }
  }

  /** The vector of hinted high bits the verifier recomputes. */
  ghost function Recomputed(a: Matrix, s: Signature, c: seq<Zq>, t1: Vector): (v: seq<seq<int>>)
    requires IsMatrix(a, 6, 5) && SigShape(s) && |c| == N && IsVector(t1, 6)
    ensures |v| == 6 && forall i | 0 <= i < 6 :: v[i] == HintedDigits(s.h[i], Residue(a, s.z, c, t1, i))
  {
    hide Residue, HintedDigits;
    seq(6, i requires 0 <= i < 6 => HintedDigits(s.h[i], Residue(a, s.z, c, t1, i)))
  }

  lemma RecomputedIs(a: Matrix, s: Signature, c: seq<Zq>, t1: Vector)
    requires IsMatrix(a, 6, 5) && SigShape(s) && |c| == N && IsVector(t1, 6)
    ensures Recomputed(a, s, c, t1) == UseHintAll(s.h, WApprox(a, s.z, c, t1))
  {
    hide Residue, UseHint, WApprox;
    var w1 := UseHintAll(s.h, WApprox(a, s.z, c, t1));
    forall i | 0 <= i < 6
      ensures Recomputed(a, s, c, t1)[i] == w1[i]
    {
      ResidueIs(a, s.z, c, t1, i);
    }
  }

  /**
   * Verification over the ring: with mu the hash of (the hash of the key, then the message) and b the
   * bytes mu, w1, a signature with a legal hint verifies if and only if every z coefficient is below
   * 2^19 - 196 and the challenge hash is the hash of b.
   */
  lemma VerifyMeans(o: Oracles, pk: Bytes, m: Bytes, sig: Bytes, x: Bytes, b: Bytes)
    requires |pk| == 1952 && |sig| == 3309 && SigAccepted(sig)
    requires ExpandA(o, pk[..32]).Some? && Sample(o.shake256(sig[..48]), o.draws).Some?
    requires Joined(x, Hash(o, pk, 64), m)
    requires Commits(b, Hash(o, x, 64), Recomputed(ExpandA(o, pk[..32]).value, SigOf(sig),
                     Sample(o.shake256(sig[..48]), o.draws).value, UnpackPk(pk).t1))
    ensures Verify(o, pk, m, sig) == Some(Small(SigOf(sig).z, 524_092) && sig[..48] == Hash(o, b, 48))
  {
    hide ExpandA, Sample, UnpackVector, HintAccepted, HintOf, Hash, Recomputed, WApprox, Commits, Small, Bounded,
         UseHintAll, PackW1, Nibbles, VectorRepresentable;
    JoinedIs(x, Hash(o, pk, 64), m);
    var a, c := ExpandA(o, pk[..32]).value, Sample(o.shake256(sig[..48]), o.draws).value;
    var s, t1 := SigOf(sig), UnpackPk(pk).t1;
    RecomputedIs(a, s, c, t1);
    var w1 := UseHintAll(s.h, WApprox(a, s.z, c, t1));
    UseHintNibbles(s.h, WApprox(a, s.z, c, t1));
    CommittedBytes(b, Hash(o, x, 64), w1);
    SmallIsBounded(s.z, 524_092);
  }

  /** A signature whose hint is malformed, or with a coefficient of z too large, is refused whatever the message. */
  lemma VerifyRefuses(o: Oracles, pk: Bytes, m: Bytes, sig: Bytes)
    requires |pk| == 1952 && |sig| == 3309 && (!SigAccepted(sig) || !Small(SigOf(sig).z, 524_092))
    ensures Verify(o, pk, m, sig) == Some(false)
  {
    hide SigAccepted, SigOf, Small, Bounded;
    if SigAccepted(sig) { SmallIsBounded(SigOf(sig).z, 524_092); }
  }

  // ----- binding

  /**
   * A signature that verifies for two different pairs of public key and message is a collision of the
   * hash, on 48 or on 64 bytes.
   */
  lemma SignatureBinds(o: Oracles, pk: Bytes, m: Bytes, pk': Bytes, m': Bytes, sig: Bytes)
    returns (x: Bytes, y: Bytes, n: nat)
    requires |pk| == 1952 && |pk'| == 1952 && |sig| == 3309 && (pk != pk' || m != m')
    requires Verify(o, pk, m, sig) == Some(true) && Verify(o, pk', m', sig) == Some(true)
    ensures (n == 48 || n == 64) && x != y && Hash(o, x, n) == Hash(o, y, n)
  {
    hide ExpandA, Sample, UnpackPk, SigAccepted, SigOf, Hash, WApprox, Bounded, UseHintAll, PackW1;
    var tr, tr' := Hash(o, pk, 64), Hash(o, pk', 64);
    var mu, mu' := Mu(o, tr, m), Mu(o, tr', m');
    if tr == tr' && pk != pk' {
      x, y, n := pk, pk', 64;
    } else if mu == mu' {
      x, y, n := tr + m, tr' + m', 64;
      Parts2(tr, m, tr', m');
    } else {
      var u, v := Committed(o, pk, m, sig), Committed(o, pk', m', sig);
      x, y, n := mu + u, mu' + v, 48;
      Parts2(mu, u, mu', v);
    }
  }

  /** Two strings with first parts of equal length agree only if both parts do. */
  lemma Parts2(a: Bytes, b: Bytes, a': Bytes, b': Bytes)
    requires |a| == |a'|
    ensures a + b == a' + b' <==> a == a' && b == b'
  {
    if a + b == a' + b' {
      assert a == (a + b)[..|a|] && b == (a + b)[|a|..];
      assert a' == (a' + b')[..|a'|] && b' == (a' + b')[|a'|..];
    }
  }

  ghost function Committed(o: Oracles, pk: Bytes, m: Bytes, sig: Bytes): (u: Bytes)
    requires |pk| == 1952 && |sig| == 3309 && Verify(o, pk, m, sig) == Some(true)
    ensures SigOf(sig).cTilde == Hash(o, Mu(o, Hash(o, pk, 64), m) + u, 48)
  {
    hide Hash, WApprox, Bounded, UseHintAll, PackW1, Mu, SigAccepted, SigOf, UnpackPk, ExpandA, Sample;
    var s, key := SigOf(sig), UnpackPk(pk);
    var a, c := ExpandA(o, key.rho).value, Sample(o.shake256(s.cTilde), o.draws).value;
    PackW1(UseHintAll(s.h, WApprox(a, s.z, c, key.t1)))
  }

  /** verify_ctx verifies 0, the length of the context, the context and the message; a long context is refused. */
  lemma VerifyCtxMeans(o: Oracles, pk: Bytes, msg: Bytes, sig: Bytes, ctx: Bytes, x: Bytes)
    requires |pk| == 1952 && |sig| == 3309
    requires |x| == 2 + |ctx| + |msg| && x[0] == 0 && x[2..2 + |ctx|] == ctx && x[2 + |ctx|..] == msg
    requires |ctx| <= 255 ==> x[1] == |ctx|
    ensures VerifyCtx(o, pk, msg, sig, ctx) == if |ctx| <= 255 then Verify(o, pk, x, sig) else Some(false)
  {
    hide Verify;
    if |ctx| <= 255 { assert x == [0, |ctx|] + x[2..2 + |ctx|] + x[2 + |ctx|..]; }
  }

  /** A signature binds the public key, the message and the context. */
  lemma ContextBinds(o: Oracles, pk: Bytes, msg: Bytes, ctx: Bytes, pk': Bytes, msg': Bytes, ctx': Bytes, sig: Bytes)
    returns (x: Bytes, y: Bytes, n: nat)
    requires |pk| == 1952 && |pk'| == 1952 && |sig| == 3309 && (pk != pk' || msg != msg' || ctx != ctx')
    requires VerifyCtx(o, pk, msg, sig, ctx) == Some(true) && VerifyCtx(o, pk', msg', sig, ctx') == Some(true)
    ensures (n == 48 || n == 64) && x != y && Hash(o, x, n) == Hash(o, y, n)
  {
    hide Verify, FormatMessage;
    if FormatMessage(msg, ctx) == FormatMessage(msg', ctx') { FormatInjective(msg, ctx, msg', ctx'); }
    x, y, n := SignatureBinds(o, pk, FormatMessage(msg, ctx), pk', FormatMessage(msg', ctx'), sig);
  }

  // ----- signing

  /** mu hashes tr, then the message; the mask seed hashes K, then the randomness, then mu. */
  lemma SessionMeans(o: Oracles, a: Matrix, key: SecretKey, m: Bytes, rnd: Bytes, stored: Option<Bytes>, x: Bytes,
                     y: Bytes)
    requires IsMatrix(a, 6, 5) && SkShape(key) && (stored.Some? ==> |stored.value| == 1952)
    requires Joined(x, key.tr, m)
    requires |y| == 96 + |rnd| && y[..32] == key.k && y[32..32 + |rnd|] == rnd && y[32 + |rnd|..] == Hash(o, x, 64)
    ensures var s := Open(o, a, key, m, rnd, stored);
            s.mu == Hash(o, x, 64) && s.rhoPrime == Hash(o, y, 64) && s.m == m && s.key == key && s.stored == stored
  {
    hide DerivePk, Hash;
    JoinedIs(x, key.tr, m);
    assert y == y[..32] + y[32..32 + |rnd|] + y[32 + |rnd|..];
  }

  /** The vectors of one attempt, over the ring. */
  ghost predicate AttemptVectors(a: Matrix, key: SecretKey, y: Vector, c: seq<Zq>, w: Vector, z: Vector, cs2: Vector,
                                 ct0: Vector)
    requires IsMatrix(a, 6, 5) && SkShape(key) && IsVector(y, 5) && |c| == N
  {
    && IsVector(w, 6) && IsVector(z, 5) && IsVector(cs2, 6) && IsVector(ct0, 6)
    && (forall i | 0 <= i < 5 :: z[i] == AddPoly(y[i], RingMul(c, key.s1[i])))
    && (forall i | 0 <= i < 6 :: w[i] == RowTimes(a, y, i))
    && (forall i | 0 <= i < 6 :: cs2[i] == RingMul(c, key.s2[i]))
    && (forall i | 0 <= i < 6 :: ct0[i] == RingMul(c, key.t0[i]))
  }

  lemma VectorsOfAttempt(a: Matrix, key: SecretKey, y: Vector, c: seq<Zq>, w: Vector, z: Vector, cs2: Vector,
                         ct0: Vector)
    requires IsMatrix(a, 6, 5) && SkShape(key) && IsVector(y, 5) && |c| == N
    requires AttemptVectors(a, key, y, c, w, z, cs2, ct0)
    ensures w == Apply(a, y) && z == AddAll(y, ProductAll(c, key.s1))
    ensures cs2 == ProductAll(c, key.s2) && ct0 == ProductAll(c, key.t0)
  {
    hide Apply, ProductAll, RowTimes, RingMul, AddPoly;
    forall i | 0 <= i < 6
      ensures w[i] == Apply(a, y)[i] && cs2[i] == ProductAll(c, key.s2)[i] && ct0[i] == ProductAll(c, key.t0)[i]
    {
      ApplyIsRing(a, y, i);
      ProductIsRing(c, key.s2, i);
      ProductIsRing(c, key.t0, i);
    }
    forall i | 0 <= i < 5
      ensures z[i] == AddAll(y, ProductAll(c, key.s1))[i]
    {
      ProductIsRing(c, key.s1, i);
    }
  }

  /** The six polynomials of high bits of w. */
  ghost function HighRows(w: Vector): (v: seq<seq<int>>)
    ensures |v| == |w| && forall i | 0 <= i < |w| :: v[i] == HighDigits(w[i])
  {
    hide HighDigits;
    seq(|w|, i requires 0 <= i < |w| => HighDigits(w[i]))
  }

  lemma CommitmentMeans(o: Oracles, mu: Bytes, w: Vector, b: Bytes)
    requires IsVector(w, 6) && Commits(b, mu, HighRows(w))
    ensures Commitment(o, mu, w) == Hash(o, b, 48)
  {
    hide HighBits, Commits, Nibbles, PackW1, Hash;
    var v := HighBitsAll(w);
    forall i | 0 <= i < 6 ensures HighRows(w)[i] == v[i] {}
    assert HighRows(w) == v;
    HighBitsNibbles(w);
    CommittedBytes(b, mu, v);
  }

  /**
   * One attempt over the ring: with b the bytes mu, w1 and c drawn from their hash, the attempt gives a
   * signature if and only if z = y + c*s1 is below 2^19 - 196, w0 - c*s2 below 261888 - 196, c*t0
   * below 261888 and the hint has at most 55 ones.
   */
  lemma AttemptMeans(o: Oracles, a: Matrix, key: SecretKey, mu: Bytes, rhoPrime: Bytes, kappa: nat, b: Bytes,
                     c: seq<Zq>, w: Vector, z: Vector, cs2: Vector, ct0: Vector)
    requires IsMatrix(a, 6, 5) && SkShape(key) && |c| == N
    requires AttemptVectors(a, key, ExpandY(o, rhoPrime, kappa, 5), c, w, z, cs2, ct0)
    requires Commits(b, mu, HighRows(w)) && Sample(o.shake256(Hash(o, b, 48)), o.draws) == Some(c)
    ensures Try(o, a, key, mu, rhoPrime, kappa)
            == if Small(z, 524_092) && DiffBounded(w, cs2, 261_692) && Small(ct0, 261_888)
                  && Ones(HintAll(w, cs2, ct0), 6) <= 55
               then Attempt.Candidate(PackSig(Signature(Hash(o, b, 48), z, HintAll(w, cs2, ct0))))
               else Rejected
  {
    hide ExpandY, Sample, Hash, HintAll, DiffBounded, Small, Bounded, Commits, Apply, ProductAll, PackSig, Listed, Ones,
         Commitment, HighRows, RingMul, RowTimes, AddPoly;
    VectorsOfAttempt(a, key, ExpandY(o, rhoPrime, kappa, 5), c, w, z, cs2, ct0);
    CommitmentMeans(o, mu, w, b);
    SmallIsBounded(z, 524_092);
    SmallIsBounded(ct0, 261_888);
    ListedCount(HintAll(w, cs2, ct0), 6);
  }

  /** The counter of the n-th attempt. */
  ghost function CounterAt(n: nat): nat { (5 * n) % 65536 }

  lemma CounterStep(n: nat)
    ensures CounterAt(n + 1) == (CounterAt(n) + 5) % 65536
  {}

  lemma {:induction false} AfterRejections(o: Oracles, s: Session, n: nat, start: nat, attempts: nat)
    requires SessionShape(s) && start <= n < start + attempts
    requires forall i | start <= i < n :: Try(o, s.a, s.key, s.mu, s.rhoPrime, CounterAt(i)).Rejected?
    ensures SignFrom(o, s, CounterAt(start), attempts) == SignFrom(o, s, CounterAt(n), attempts - (n - start))
    decreases n - start
  {
    hide Try, SessionShape, CounterAt, Release;
    SessionKeys(s);
    if start < n {
      CounterStep(start);
      AfterRejections(o, s, n, start + 1, attempts - 1);
    }
  }

  /**
   * Under an honest key the signature is the one of the first attempt that is not rejected, with
   * counter 5 * n modulo 2^16, provided that attempt is off the boundary.
   */
  lemma FirstAccepted(o: Oracles, sk: Bytes, m: Bytes, rnd: Bytes, n: nat, attempts: nat)
    requires |sk| == 4032 && n < attempts && ExpandA(o, UnpackSk(sk).rho).Some?
    requires Honest(o, ExpandA(o, UnpackSk(sk).rho).value, UnpackSk(sk))
    requires var s := Open(o, ExpandA(o, UnpackSk(sk).rho).value, UnpackSk(sk), m, rnd, None);
             && (forall i | 0 <= i < n :: Try(o, s.a, s.key, s.mu, s.rhoPrime, CounterAt(i)).Rejected?)
             && Try(o, s.a, s.key, s.mu, s.rhoPrime, CounterAt(n)).Candidate?
             && !OnBoundary(o, s.a, s.key, s.mu, s.rhoPrime, CounterAt(n))
    ensures var s := Open(o, ExpandA(o, UnpackSk(sk).rho).value, UnpackSk(sk), m, rnd, None);
            Sign(o, sk, m, rnd, None, attempts) == Signed(Try(o, s.a, s.key, s.mu, s.rhoPrime, CounterAt(n)).sig)
  {
    hide UnpackSk, ExpandA, Honest, Try, OnBoundary, SignFrom, DerivePk, Mu, Hash;
    var key := UnpackSk(sk);
    var a := ExpandA(o, key.rho).value;
    HonestShape(o, a, key);
    var s := Open(o, a, key, m, rnd, None);
    AfterRejections(o, s, n, 0, attempts);
    FirstCandidateReleased(o, a, key, m, rnd, CounterAt(n), attempts - n);
  }

  // ----- key generation

  /** t1 * 2^13 + t0 = r + s modulo q, with t1 in ten bits and t0 in (-4096, 4096]. */
  ghost predicate Rounds(t1: int, t0: int, r: int, s: int)
  {
    0 <= t1 < 1024 && -4096 < t0 <= 4096 && Cong(8192 * t1 + t0, r + s, Q)
  }

  /** t1 and t0 are the rounding of A * s1 + s2. */
  ghost predicate RoundsAll(t1: Vector, t0: Vector, a: Matrix, s1: Vector, s2: Vector)
    requires IsVector(t1, 6) && IsVector(t0, 6) && IsMatrix(a, 6, 5) && IsVector(s1, 5) && IsVector(s2, 6)
  {
    hide RowTimes;
    forall i, j | 0 <= i < 6 && 0 <= j < 256 :: Rounds(t1[i][j], ToSigned(t0[i][j]), RowTimes(a, s1, i)[j], s2[i][j])
  }

  lemma KeyRounds(a: Matrix, s1: Vector, s2: Vector)
    requires IsMatrix(a, 6, 5) && IsVector(s1, 5) && IsVector(s2, 6)
    ensures RoundsAll(HighAll(PublicT(a, s1, s2)), LowAll(PublicT(a, s1, s2)), a, s1, s2)
  {
    hide Apply, RowTimes, HighPower, LowPower, SAdd, ToSigned, ToCanonical, Rounds;
    var t := PublicT(a, s1, s2);
    forall i, j | 0 <= i < 6 && 0 <= j < 256
      ensures Rounds(HighAll(t)[i][j], ToSigned(LowAll(t)[i][j]), RowTimes(a, s1, i)[j], s2[i][j])
    {
      ApplyIsRing(a, s1, i);
      RoundedSum(RowTimes(a, s1, i)[j], s2[i][j]);
    }
  }

  lemma RoundedSum(r: Zq, s: Zq)
    ensures Rounds(HighPower(SAdd(r, s)), ToSigned(ToCanonical(LowPower(SAdd(r, s)))), r, s)
  {
    hide HighPower, LowPower, SAdd;
    var t := SAdd(r, s);
    SAddCong(r, s);
    Power2RoundCorrect(t);
    SignedRoundTrip(LowPower(t));
  }

  /** The generated key pair is read back as: */
  ghost predicate Generated(o: Oracles, e: Bytes, pk: Bytes, sk: SecretKey)
    requires |e| == 128 && |pk| == 1952 && SkShape(sk)
  {
    && pk[..32] == e[..32] == sk.rho && sk.k == e[96..] && sk.tr == Hash(o, pk, 64)
    && ExpandSecret(o, e[32..96], 0, 5) == Some(sk.s1) && ExpandSecret(o, e[32..96], 5, 6) == Some(sk.s2)
    && ExpandA(o, sk.rho).Some? && RoundsAll(UnpackPk(pk).t1, sk.t0, ExpandA(o, sk.rho).value, sk.s1, sk.s2)
  }

  /**
   * Key generation: 128 bytes of the hash of the seed, 6 and 5 give rho, rho' and K; the secrets are
   * numbered 0 to 4 and 5 to 10; tr hashes the public key; and t1 * 2^13 + t0 is A * s1 + s2.
   */
  lemma KeygenMeans(o: Oracles, seed: Bytes, x: Bytes)
    requires Keygen(o, seed).Some? && Joined(x, seed, [6, 5])
    ensures Generated(o, Hash(o, x, 128), Keygen(o, seed).value.pk, UnpackSk(Keygen(o, seed).value.sk))
  {
    hide DerivePk, PublicT, PackSk, UnpackSk, LowAll, HighAll, ExpandA, ExpandSecret, Hash, VectorRepresentable,
         ShortVector, UnpackPk, RoundsAll;
    JoinedIs(x, seed, [6, 5]);
    var e := KeySeeds(o, seed);
    var rho, rhoPrime, k := e[..32], e[32..96], e[96..];
    var a := ExpandA(o, rho).value;
    var s1, s2 := ExpandSecret(o, rhoPrime, 0, L).value, ExpandSecret(o, rhoPrime, L, K).value;
    var t := PublicT(a, s1, s2);
    ShortRepresentable(s1);
    ShortRepresentable(s2);
    LowRepresentable(t);
    SkRoundTrip(SecretKey(rho, k, Hash(o, DerivePk(a, rho, s1, s2), 64), s1, s2, LowAll(t)));
    DerivedKey(a, rho, s1, s2);
    KeyRounds(a, s1, s2);
    DerivedSeed(a, rho, s1, s2);
  }

  lemma DerivedSeed(a: Matrix, rho: Bytes, s1: Vector, s2: Vector)
    requires IsMatrix(a, K, L) && |rho| == 32 && IsVector(s1, L) && IsVector(s2, K)
    ensures DerivePk(a, rho, s1, s2)[..32] == rho
  {
    hide PublicT, HighAll, PackVector;
  }
}
