/**
 * The challenge polynomial of solomon-core/src/crypto/sign.rs (SampleInBall): its weight, and what
 * the weight implies for products with short polynomials.
 */
module MlDsaSampling {
  import opened Basics
  import opened Congruence
  import opened MlDsaScalar
  import opened MlDsaRounding
  import opened MlDsaProduct
  import opened MlDsaVectors

  /** The output of an extendable-output function: byte after byte without end. */
  type Stream = nat -> Byte

  const TAU := 49

  function Squeeze(s: Stream, from: nat, n: nat): (r: seq<Byte>)
    ensures |r| == n && forall i | 0 <= i < n :: r[i] == s(from + i)
  {
    seq(n, i requires 0 <= i < n => s(from + i))
  }

  /** Bytes as a little-endian number. */
  function LittleEndian(b: seq<Byte>): nat
  {
    if b == [] then 0 else b[0] + LittleEndian(b[1..]) * 256
  }

  /** c[i] = c[j], then c[j] = 1 or -1. */
  function Place(c: seq<Zq>, i: nat, j: nat, signs: nat): (r: seq<Zq>)
    requires |c| == N && j <= i < N
    ensures |r| == N
  {
    c[i := c[j]][j := if signs % 2 == 1 then Q - 1 else 1]
  }

  /**
   * The sampling loop from step i on, reading the stream from pos; None when the first limit
   * bytes do not suffice.
   */
  function SampleFrom(s: Stream, limit: nat, i: nat, pos: nat, c: seq<Zq>, signs: nat): (r: Option<seq<Zq>>)
    requires |c| == N && i <= N
    ensures r.Some? ==> |r.value| == N
    decreases N - i, limit - pos
  {
    hide Place;
    if i == N then Some(c)
    else if pos >= limit then None
    else if s(pos) <= i then SampleFrom(s, limit, i + 1, pos + 1, Place(c, i, s(pos), signs), signs / 2)
    else SampleFrom(s, limit, i, pos + 1, c, signs)
  }

  function Sample(s: Stream, limit: nat): (r: Option<seq<Zq>>)
    ensures r.Some? ==> |r.value| == N
  {
    SampleFrom(s, limit, N - TAU, 8, ZeroPoly(), LittleEndian(Squeeze(s, 0, 8)))
  }

  /** sample_in_ball, in place. */
  method SampleInBall(s: Stream, limit: nat) returns (r: Option<seq<Zq>>)
    ensures r == Sample(s, limit)
  {
    hide Place, Sample;
    var signs := LittleEndian(Squeeze(s, 0, 8));
    var c := ZeroPoly();
    var pos: nat := 8;
    SampleStart(s, limit);
    for i := N - TAU to N
      invariant |c| == N && Sample(s, limit) == SampleFrom(s, limit, i, pos, c, signs)
    {
      while pos < limit && s(pos) > i
        invariant Sample(s, limit) == SampleFrom(s, limit, i, pos, c, signs)
        decreases limit - pos
      {
        pos := pos + 1;
      }
      if pos >= limit { return None; }
      var j := s(pos);
      pos := pos + 1;
      c := Place(c, i, j, signs);
      signs := signs / 2;
    }
    return Some(c);
  }

  lemma SampleStart(s: Stream, limit: nat)
    ensures Sample(s, limit) == SampleFrom(s, limit, N - TAU, 8, ZeroPoly(), LittleEndian(Squeeze(s, 0, 8)))
  {}

  /** More bytes do not change a finished sample. */
  lemma {:induction false} SampleStable(s: Stream, limit: nat, limit': nat, i: nat, pos: nat, c: seq<Zq>, signs: nat)
    requires |c| == N && i <= N && limit <= limit' && SampleFrom(s, limit, i, pos, c, signs).Some?
    ensures SampleFrom(s, limit', i, pos, c, signs) == SampleFrom(s, limit, i, pos, c, signs)
    decreases N - i, limit - pos
  {
    hide Place;
    if i < N && pos < limit {
      if s(pos) <= i {
        SampleStable(s, limit, limit', i + 1, pos + 1, Place(c, i, s(pos), signs), signs / 2);
      } else {
        SampleStable(s, limit, limit', i, pos + 1, c, signs);
      }
    }
  }

  // ----- weight

  function Mark(c: Zq): nat { if c != 0 then 1 else 0 }

  /** The number of non-zero coefficients among the first k. */
  function Weight(c: seq<Zq>, k: nat): nat
    requires k <= |c|
  {
    hide Mark;
    if k == 0 then 0 else Weight(c, k - 1) + Mark(c[k - 1])
  }

  lemma {:induction false} WeightUpdate(c: seq<Zq>, p: nat, v: Zq, k: nat)
    requires p < |c| && k <= |c|
    ensures Weight(c[p := v], k) == Weight(c, k) + if p < k then Mark(v) - Mark(c[p]) else 0
  {
    hide Mark;
    if k > 0 { WeightUpdate(c, p, v, k - 1); }
  }

  lemma {:induction false} WeightZero(c: seq<Zq>, k: nat)
    requires k <= |c| && forall i | 0 <= i < k :: c[i] == 0
    ensures Weight(c, k) == 0
  {
    if k > 0 { WeightZero(c, k - 1); }
  }

  predicate Ternary(c: Zq) { c == 0 || c == 1 || c == Q - 1 }

  /** Before step i: ternary, zero from i on, one non-zero coefficient per step taken. */
  ghost predicate BallAt(c: seq<Zq>, i: nat)
  {
    && |c| == N && N - TAU <= i <= N && Weight(c, N) == i - (N - TAU)
    && (forall k | 0 <= k < N :: Ternary(c[k]))
    && (forall k | i <= k < N :: c[k] == 0)
  }

  lemma PlaceKeeps(c: seq<Zq>, i: nat, j: nat, signs: nat)
    requires BallAt(c, i) && j <= i < N
    ensures BallAt(Place(c, i, j, signs), i + 1)
  {
    hide Weight;
    var v: Zq := if signs % 2 == 1 then Q - 1 else 1;
    var d := c[i := c[j]];
    WeightUpdate(c, i, c[j], N);
    WeightUpdate(d, j, v, N);
  }

  lemma {:induction false} SampleFromBall(s: Stream, limit: nat, i: nat, pos: nat, c: seq<Zq>, signs: nat)
    requires BallAt(c, i)
    ensures SampleFrom(s, limit, i, pos, c, signs).Some? ==> BallAt(SampleFrom(s, limit, i, pos, c, signs).value, N)
    decreases N - i, limit - pos
  {
    hide BallAt, Place;
    BallShape(c, i);
    if i < N && pos < limit {
      if s(pos) <= i {
        PlaceKeeps(c, i, s(pos), signs);
        SampleFromBall(s, limit, i + 1, pos + 1, Place(c, i, s(pos), signs), signs / 2);
      } else {
        SampleFromBall(s, limit, i, pos + 1, c, signs);
      }
    }
  }

  lemma BallShape(c: seq<Zq>, i: nat)
    requires BallAt(c, i)
    ensures |c| == N && i <= N
  {}

  /** Exactly 49 coefficients are not zero and each of them is 1 or -1. */
  ghost predicate IsChallenge(c: seq<Zq>)
  {
    |c| == N && Weight(c, N) == TAU && forall k | 0 <= k < N :: Ternary(c[k])
  }

  /** Whatever the stream, a finished sample is a challenge. */
  lemma SampleIsChallenge(s: Stream, limit: nat)
    ensures Sample(s, limit).Some? ==> IsChallenge(Sample(s, limit).value)
  {
    hide SampleFrom, Weight;
    WeightZero(ZeroPoly(), N);
    SampleFromBall(s, limit, N - TAU, 8, ZeroPoly(), LittleEndian(Squeeze(s, 0, 8)));
  }

  // ----- products with short polynomials

  ghost function SignedRotated(b: seq<Zq>, i: nat, k: nat): int
    requires |b| == N && i <= N && k < N
  {
    if i <= k then ToSigned(b[k - i]) else 0 - ToSigned(b[N + k - i])
  }

  /** The product coefficient over signed representatives. */
  ghost function SignedCoeff(a: seq<Zq>, b: seq<Zq>, k: nat, n: nat): int
    requires |a| == N && |b| == N && k < N && n <= N
  {
    hide SignedRotated, ToSigned;
    if n == 0 then 0 else SignedCoeff(a, b, k, n - 1) + ToSigned(a[n - 1]) * SignedRotated(b, n - 1, k)
  }

  lemma {:induction false} SignedCoeffCong(a: seq<Zq>, b: seq<Zq>, k: nat, n: nat)
    requires |a| == N && |b| == N && k < N && n <= N
    ensures Cong(SignedCoeff(a, b, k, n), ProductCoeff(a, b, k, n), Q)
    decreases n
  {
    hide SignedRotated, ToSigned, Cong, Rotated;
    if n == 0 {
      Reflexive(0, 0);
    } else {
      SignedCoeffCong(a, b, k, n - 1);
      SignedCong(a[n - 1]);
      SignedRotatedCong(b, n - 1, k);
      CongMul(ToSigned(a[n - 1]), a[n - 1], SignedRotated(b, n - 1, k), Rotated(b, n - 1, k), Q);
      CongAdd(SignedCoeff(a, b, k, n - 1), ProductCoeff(a, b, k, n - 1),
              ToSigned(a[n - 1]) * SignedRotated(b, n - 1, k), a[n - 1] * Rotated(b, n - 1, k), Q);
    }
  }

  lemma SignedRotatedCong(b: seq<Zq>, i: nat, k: nat)
    requires |b| == N && i <= N && k < N
    ensures Cong(SignedRotated(b, i, k), Rotated(b, i, k), Q)
  {
    hide ToSigned, Cong;
    var v: int := if i <= k then b[k - i] else b[N + k - i];
    SignedCong(v);
    Reflexive(0, 0);
    CongSub(0, 0, ToSigned(v), v, Q);
  }

  /** Each non-zero coefficient of a ternary a contributes at most the bound of b. */
  lemma {:induction false} SignedCoeffBound(a: seq<Zq>, b: seq<Zq>, k: nat, n: nat, bound: nat)
    requires |a| == N && |b| == N && k < N && n <= N
    requires (forall i | 0 <= i < N :: Ternary(a[i])) && (forall i | 0 <= i < N :: Magnitude(b[i]) <= bound)
    ensures -(bound * Weight(a, n)) <= SignedCoeff(a, b, k, n) <= bound * Weight(a, n)
    decreases n
  {
    hide Magnitude, ToSigned, SignedRotated, Mark, Ternary;
    if n > 0 {
      SignedCoeffBound(a, b, k, n - 1, bound);
      TermBound(a[n - 1], b, n - 1, k, bound);
      MulDistr(bound, Weight(a, n - 1), Mark(a[n - 1]));
    }
  }

  lemma TermBound(c: Zq, b: seq<Zq>, i: nat, k: nat, bound: nat)
    requires |b| == N && i < N && k < N && Ternary(c) && forall t | 0 <= t < N :: Magnitude(b[t]) <= bound
    ensures -(bound * Mark(c)) <= ToSigned(c) * SignedRotated(b, i, k) <= bound * Mark(c)
  {
    var r := SignedRotated(b, i, k);
    assert 0 - bound <= r <= bound by {
      if i <= k { assert Magnitude(b[k - i]) <= bound; } else { assert Magnitude(b[N + k - i]) <= bound; }
    }
    if c == 0 {
      assert 0 * r == 0;
    } else if c == 1 {
      assert 1 * r == r;
    } else {
      assert -1 * r == 0 - r;
    }
  }

  /**
   * A challenge times a polynomial with coefficients up to bound has coefficients up to
   * 49 * bound; for secrets in [-4, 4] that is 196.
   */
  lemma ChallengeProductBound(c: seq<Zq>, s: seq<Zq>, bound: nat, k: nat)
    requires IsChallenge(c) && |s| == N && k < N && TAU * bound <= (Q - 1) / 2
    requires forall i | 0 <= i < N :: Magnitude(s[i]) <= bound
    ensures Magnitude(RingMul(c, s)[k]) <= TAU * bound
  {
    hide Magnitude, RingMul, SignedCoeff, ProductCoeff, Weight, Ternary;
    var v := SignedCoeff(c, s, k, N);
    SignedCoeffBound(c, s, k, N, bound);
    SignedCoeffCong(c, s, k, N);
    CongMod(ProductCoeff(c, s, k, N), Q);
    SmallRepresentative(RingMul(c, s)[k], v, TAU * bound);
  }

  lemma SmallRepresentative(r: Zq, v: int, bound: nat)
    requires Cong(v, r, Q) && 0 - bound <= v <= bound && bound <= (Q - 1) / 2
    ensures Magnitude(r) <= bound
  {
    SignedCong(r);
    SignedUnique(ToSigned(r), v);
  }

  // ----- rejection sampling of matrices and secrets

  /** montgomery_reduce(v * 2^32) brings v into canonical range. */
  lemma ToCanonicalByMontgomery(v: int)
    requires -Q < v < Q
    ensures MontgomeryReduce(v * MONT) == ToCanonical(v)
  {
    hide MontgomeryReduce, Cong;
    MontgomeryReduceCorrect(v * MONT);
    var r := MontgomeryReduce(v * MONT);
    DivideByRadix(r, v * MONT);
    CanonicalValue(r, v);
  }

  lemma CanonicalValue(r: int, v: int)
    requires 0 <= r < Q && -Q < v < Q && Cong(r, v * MONT * MONT_INV, Q)
    ensures r == ToCanonical(v)
  {
    MontgomeryConstants();
    CongMulLeft(v, MONT * MONT_INV, 1, Q);
    assert v * MONT * MONT_INV == v * (MONT * MONT_INV);
    CanonicalCong(v);
    ZqUnique(r, ToCanonical(v));
  }

  /** A sampled value v as the source stores it. */
  function Stored(v: int): (r: Zq)
    requires -Q < v < Q
    ensures r == ToCanonical(v)
  {
    ToCanonicalByMontgomery(v);
    MontgomeryReduce(v * MONT)
  }

  /** 23 bits of three bytes. */
  function Candidate23(s: Stream, pos: nat): (r: nat)
  {
    s(pos) + s(pos + 1) * 256 + (s(pos + 2) % 128) * 65536
  }

  /** Uniform coefficients: 23-bit candidates below q. */
  function UniformFrom(s: Stream, limit: nat, pos: nat, acc: seq<Zq>): (r: Option<seq<Zq>>)
    requires |acc| <= N
    ensures r.Some? ==> |r.value| == N
    decreases limit - pos
  {
    hide Candidate23, Stored;
    if |acc| == N then Some(acc)
    else if pos >= limit then None
    else
      var z := Candidate23(s, pos);
      UniformFrom(s, limit, pos + 3, if z < Q then acc + [Stored(z)] else acc)
  }

  method SampleUniform(s: Stream, limit: nat) returns (r: Option<seq<Zq>>)
    ensures r == UniformFrom(s, limit, 0, [])
  {
    hide Candidate23, Stored;
    var coeffs: seq<Zq> := [];
    var pos: nat := 0;
    while |coeffs| < N
      invariant |coeffs| <= N && UniformFrom(s, limit, 0, []) == UniformFrom(s, limit, pos, coeffs)
      decreases limit - pos
    {
      if pos >= limit { return None; }
      var z := Candidate23(s, pos);
      pos := pos + 3;
      if z < Q { coeffs := coeffs + [Stored(z)]; }
    }
    return Some(coeffs);
  }

  ghost predicate Short(p: seq<Zq>)
  {
    forall i | 0 <= i < |p| :: Magnitude(p[i]) <= 4
  }

  /** The coefficients one nibble contributes: 4 - n for n below 9, while there is room. */
  function TakeNibble(acc: seq<Zq>, n: nat): (r: seq<Zq>)
    requires |acc| <= N
    ensures |r| <= N && (Short(acc) ==> Short(r))
  {
    if |acc| < N && n < 9 then acc + [Stored(4 - n)] else acc
  }

  /** Secret coefficients: nibbles below 9, the lower one first. */
  function BoundedFrom(s: Stream, limit: nat, pos: nat, acc: seq<Zq>): (r: Option<seq<Zq>>)
    requires |acc| <= N
    ensures r.Some? ==> |r.value| == N && (Short(acc) ==> Short(r.value))
    decreases limit - pos
  {
    hide TakeNibble;
    if |acc| == N then Some(acc)
    else if pos >= limit then None
    else BoundedFrom(s, limit, pos + 1, TakeNibble(TakeNibble(acc, s(pos) % 16), s(pos) / 16))
  }

  /** The inner loop of expand_s: on every stream, 256 coefficients in [-4, 4] or no result. */
  method SampleBounded(s: Stream, limit: nat) returns (r: Option<seq<Zq>>)
    ensures r == BoundedFrom(s, limit, 0, [])
    ensures r.Some? ==> |r.value| == N && Short(r.value)
  {
    hide TakeNibble, Short;
    assert Short([]) by { NothingSampled(); }
    var coeffs: seq<Zq> := [];
    var pos: nat := 0;
    while |coeffs| < N
      invariant |coeffs| <= N && BoundedFrom(s, limit, 0, []) == BoundedFrom(s, limit, pos, coeffs) && Short(coeffs)
      decreases limit - pos
    {
      if pos >= limit { return None; }
      var b := s(pos);
      pos := pos + 1;
      coeffs := TakeNibble(coeffs, b % 16);
      coeffs := TakeNibble(coeffs, b / 16);
    }
    return Some(coeffs);
  }

  lemma NothingSampled()
    ensures Short([])
  {}
}
