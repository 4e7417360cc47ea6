/**
 * Rounding and hints of solomon-core/src/crypto/poly.rs, coefficient by coefficient: Power2Round,
 * Decompose, MakeHint, UseHint, and the hint that the signing loop computes for itself.
 */
module MlDsaRounding {
  import opened Congruence
  import opened MlDsaScalar

  const GAMMA1: int := 524_288
  const GAMMA2: int := 261_888
  const ALPHA: int := 523_776
  const BETA: int := 196
  const HIGH_VALUES: int := 16

  // ----- signed representatives

  /** to_signed: the representative of least absolute value. */
  function ToSigned(c: int): int
  {
    if c > (Q - 1) / 2 then c - Q else c
  }

  /** to_canonical, for a value in (-q, q). */
  function ToCanonical(v: int): int
  {
    if v < 0 then v + Q else v
  }

  lemma SignedRoundTrip(v: int)
    requires -(Q - 1) / 2 <= v <= (Q - 1) / 2
    ensures 0 <= ToCanonical(v) < Q && ToSigned(ToCanonical(v)) == v
  {}

  lemma SignedCong(c: int)
    ensures Cong(ToSigned(c), c, Q)
  {
    CongIntro(ToSigned(c), c, if c > (Q - 1) / 2 then -1 else 0, Q);
  }

  lemma CanonicalCong(v: int)
    ensures Cong(ToCanonical(v), v, Q)
  {
    CongIntro(ToCanonical(v), v, if v < 0 then 1 else 0, Q);
  }

  /** The centred remainder is determined by its class and its range. */
  lemma SignedUnique(a: int, b: int)
    requires Cong(a, b, Q) && -Q < a - b < Q
    ensures a == b
  {
    var k := CongElim(a, b, Q);
    MulAtLeast(k, Q);
  }

  // ----- Power2Round

  const D_POW: int := 8192

  function LowPower(r: Zq): int
  {
    var m := r % D_POW;
    if m > 4096 then m - D_POW else m
  }

  function HighPower(r: Zq): int
  {
    (r - LowPower(r)) / D_POW
  }

  /** r = r1 * 2^13 + r0 with r0 in (-2^12, 2^12] and r1 in 10 bits. */
  lemma Power2RoundCorrect(r: Zq)
    ensures r == HighPower(r) * D_POW + LowPower(r)
    ensures -4096 < LowPower(r) <= 4096 && 0 <= HighPower(r) < 1024
  {}

  // ----- Decompose

  /** r mod alpha, centred in (-alpha/2, alpha/2]. */
  function CentredLow(r: Zq): int
  {
    var m := r % ALPHA;
    if m > GAMMA2 then m - ALPHA else m
  }

  function HighBits(r: Zq): int
  {
    var low := CentredLow(r);
    if r - low == Q - 1 then 0 else (r - low) / ALPHA
  }

  /** The low part; at the wrap q - 1 it is one less. */
  function LowBits(r: Zq): int
  {
    var low := CentredLow(r);
    if r - low == Q - 1 then low - 1 else low
  }

  /** r is r1 * alpha + r0 modulo q, with r1 among 16 values and r0 within alpha/2. */
  lemma DecomposeCorrect(r: Zq)
    ensures 0 <= HighBits(r) < HIGH_VALUES && -GAMMA2 <= LowBits(r) <= GAMMA2
    ensures Cong(HighBits(r) * ALPHA + LowBits(r), r, Q)
  {
    var low := CentredLow(r);
    if r - low == Q - 1 {
      CongIntro(HighBits(r) * ALPHA + LowBits(r), r, -1, Q);
    }
  }

  /** The decomposition of a number given as r1 * alpha + r0 with r0 inside its interval. */
  lemma DecomposeOf(r: Zq, high: int, low: int)
    requires 0 <= high < HIGH_VALUES && -GAMMA2 < low <= GAMMA2
    requires r == high * ALPHA + low || (high == 0 && r == low + Q && low < 0)
    ensures HighBits(r) == high && LowBits(r) == low
  {
    if r == high * ALPHA + low {
      if low >= 0 { DivModUnique(r, high, low, ALPHA); }
      else { DivModUnique(r, high - 1, low + ALPHA, ALPHA); }
    } else {
      assert r == 16 * ALPHA + low + 1;
      if low == -1 { DivModUnique(r, 16, 0, ALPHA); }
      else { DivModUnique(r, 15, low + 1 + ALPHA, ALPHA); }
    }
  }

  // ----- hints

  function MakeHint(r: Zq, z: Zq): int
  {
    hide SAdd;
    if HighBits(r) != HighBits(SAdd(r, z)) then 1 else 0
  }

  function UseHint(h: int, r: Zq): int
  {
    var r1 := HighBits(r);
    if h == 0 then r1
    else if LowBits(r) > 0 then (r1 + 1) % HIGH_VALUES
    else (r1 + HIGH_VALUES - 1) % HIGH_VALUES
  }

  /** The sum of two residues, in one of three positions. */
  lemma SumPosition(r: Zq, z: Zq, v: int)
    requires -GAMMA2 <= v <= GAMMA2 && z == ToCanonical(v)
    ensures SAdd(r, z) == r + v || SAdd(r, z) == r + v - Q || SAdd(r, z) == r + v + Q
    ensures 0 <= r + v < Q ==> SAdd(r, z) == r + v
    ensures r + v >= Q ==> SAdd(r, z) == r + v - Q
    ensures r + v < 0 ==> SAdd(r, z) == r + v + Q
  {}

  /** High bits in closed form: the nearest multiple of alpha, 16 read as 0. */
  lemma HighBitsClosed(r: Zq)
    ensures HighBits(r) == ((r + GAMMA2 - 1) / ALPHA) % HIGH_VALUES
    ensures LowBits(r) > 0 <==> (r > 0 && (r - 1) % ALPHA < GAMMA2 && r <= 15 * ALPHA + GAMMA2)
  {
    var q, m := r / ALPHA, r % ALPHA;
    assert 0 <= q <= 16;
    if m > GAMMA2 {
      DivModUnique(r + GAMMA2 - 1, q + 1, m + GAMMA2 - 1 - ALPHA, ALPHA);
      DivModUnique(r - 1, q, m - 1, ALPHA);
    } else if m >= 1 {
      DivModUnique(r + GAMMA2 - 1, q, m + GAMMA2 - 1, ALPHA);
      DivModUnique(r - 1, q, m - 1, ALPHA);
    } else {
      DivModUnique(r + GAMMA2 - 1, q, GAMMA2 - 1, ALPHA);
      if r > 0 { DivModUnique(r - 1, q - 1, ALPHA - 1, ALPHA); }
    }
  }

  /**
   * A shift by at most alpha/2 moves the high bits by at most one, upwards only from a positive
   * low part and downwards only from a non-positive one; one hint bit therefore recovers them.
   */
  lemma HintRecoversHighBits(r: Zq, z: Zq, v: int)
    requires -GAMMA2 <= v <= GAMMA2 && z == ToCanonical(v)
    ensures UseHint(MakeHint(r, z), r) == HighBits(SAdd(r, z))
  {
    hide SAdd;
    SumPosition(r, z, v);
    NeighbourIntervals(r, SAdd(r, z), v);
  }

  lemma NeighbourIntervals(r: Zq, s: Zq, v: int)
    requires -GAMMA2 <= v <= GAMMA2
    requires s == r + v || (s == r + v - Q && r + v >= Q) || (s == r + v + Q && r + v < 0)
    ensures HighBits(s) == HighBits(r) || HighBits(s) == UseHint(1, r)
  {
    if v >= 0 { IntervalAbove(r, s, v); } else { IntervalBelow(r, s, v); }
  }

  lemma IntervalAbove(r: Zq, s: Zq, v: int)
    requires 0 <= v <= GAMMA2 && (s == r + v || (s == r + v - Q && r + v >= Q))
    ensures HighBits(s) == HighBits(r) || HighBits(s) == UseHint(1, r)
  {
    if s == r + v { StepAbove(r, s); } else { WrapToBottom(r, s); }
  }

  lemma StepAbove(r: Zq, s: Zq)
    requires 0 <= s - r <= GAMMA2
    ensures HighBits(s) == HighBits(r) || HighBits(s) == UseHint(1, r)
  {
    var q, m := r / ALPHA, r % ALPHA;
    var q', m' := s / ALPHA, s % ALPHA;
    assert r == q * ALPHA + m && s == q' * ALPHA + m';
    assert 0 <= q <= q' <= q + 1 && q' <= 16;
    assert q' == 16 ==> m' == 0;
  }

  /** Above q the residue wraps to interval 0. */
  lemma WrapToBottom(r: Zq, s: Zq)
    requires 0 <= s < GAMMA2 && Q - GAMMA2 <= r && s - r + Q <= GAMMA2
    ensures HighBits(s) == HighBits(r) || HighBits(s) == UseHint(1, r)
  {
    var q, m := r / ALPHA, r % ALPHA;
    assert r == q * ALPHA + m && 15 <= q <= 16;
    assert HighBits(s) == 0;
  }

  lemma IntervalBelow(r: Zq, s: Zq, v: int)
    requires -GAMMA2 <= v < 0 && (s == r + v || (s == r + v + Q && r + v < 0))
    ensures HighBits(s) == HighBits(r) || HighBits(s) == UseHint(1, r)
  {
    if s == r + v { StepBelow(r, s); } else { WrapToTop(r, s); }
  }

  lemma StepBelow(r: Zq, s: Zq)
    requires -GAMMA2 <= s - r < 0
    ensures HighBits(s) == HighBits(r) || HighBits(s) == UseHint(1, r)
  {
    var q, m := r / ALPHA, r % ALPHA;
    var q', m' := s / ALPHA, s % ALPHA;
    assert r == q * ALPHA + m && s == q' * ALPHA + m';
    assert 0 <= q <= 16 && q - 1 <= q' <= q;
    assert q == 16 ==> m == 0;
  }

  /** Below zero the residue wraps to the interval around q, which is read as 0, or to interval 15. */
  lemma WrapToTop(r: Zq, s: Zq)
    requires r < GAMMA2 && Q - GAMMA2 <= s && s - Q < r && -GAMMA2 <= s - Q - r
    ensures HighBits(s) == HighBits(r) || HighBits(s) == UseHint(1, r)
  {
    var q', m' := s / ALPHA, s % ALPHA;
    assert s == q' * ALPHA + m' && 15 <= q' <= 16;
    assert HighBits(r) == 0 && LowBits(r) == r;
  }

  // ----- the hint of the signing loop

  /** The bit the signing loop computes from u = w0 - c*s2 + c*t0 and w1. */
  function LoopHint(u: int, w1: int): int
  {
    var negU := -u;
    if negU > GAMMA2 || negU < -GAMMA2 || (negU == -GAMMA2 && w1 != 0) then 1 else 0
  }

  /** The inputs on which the loop's bit is wrong: u at either end of the interval, w1 not zero. */
  predicate HintBoundary(u: int, w1: int)
  {
    (u == GAMMA2 || u == -GAMMA2) && w1 != 0
  }

  /**
   * The loop's bit lets UseHint recover w1 from w1 * alpha + u exactly when the boundary is
   * avoided; on the boundary it recovers a different value.
   */
  lemma LoopHintExact(w1: int, u: int, r: Zq)
    requires 0 <= w1 < HIGH_VALUES && -ALPHA + BETA < u < ALPHA - BETA
    requires Cong(r, w1 * ALPHA + u, Q)
    ensures UseHint(LoopHint(u, w1), r) == w1 <==> !HintBoundary(u, w1)
    ensures 0 <= UseHint(LoopHint(u, w1), r) < HIGH_VALUES
  {
    var k := CongElim(r, w1 * ALPHA + u, Q);
    assert r == w1 * ALPHA + u + k * Q;
    MulAtLeast(k + 1, Q);
    MulAtLeast(k - 1, Q);
    assert -1 <= k <= 1;
    LoopHintCases(w1, u, r, k);
  }

  lemma LoopHintCases(w1: int, u: int, r: Zq, k: int)
    requires 0 <= w1 < HIGH_VALUES && -ALPHA + BETA < u < ALPHA - BETA && -1 <= k <= 1
    requires r == w1 * ALPHA + u + k * Q
    ensures UseHint(LoopHint(u, w1), r) == w1 <==> !HintBoundary(u, w1)
    ensures 0 <= UseHint(LoopHint(u, w1), r) < HIGH_VALUES
  {
    hide HighBits, LowBits;
    if -GAMMA2 < u <= GAMMA2 {
      DecomposeOf(r, w1, u);
    } else if u <= -GAMMA2 {
      if w1 >= 1 { DecomposeOf(r, w1 - 1, u + ALPHA); }
      else if u + ALPHA - 1 <= GAMMA2 && u < -GAMMA2 { WrapBelow(r, u); }
      else { DecomposeAtEnd(r, u); }
    } else {
      if w1 <= 14 { DecomposeOf(r, w1 + 1, u - ALPHA); }
      else { WrapAbove(r, u, k); }
    }
  }

  /** w1 = 0 and u below the interval: r = q + u lies in interval 15. */
  lemma WrapBelow(r: Zq, u: int)
    requires -ALPHA + BETA < u < -GAMMA2 && r == u + Q
    ensures HighBits(r) == 15 && LowBits(r) > 0
  {
    DecomposeOf(r, 15, u + ALPHA + 1);
  }

  /** w1 = 0 and u = -alpha/2: r = q - alpha/2 is read as high part 0. */
  lemma DecomposeAtEnd(r: Zq, u: int)
    requires u == -GAMMA2 && r == u + Q
    ensures HighBits(r) == 0
  {
    assert r % ALPHA == GAMMA2 + 1;
  }

  /** w1 = 15 and u above the interval: r lies in the interval that is read as 0. */
  lemma WrapAbove(r: Zq, u: int, k: int)
    requires GAMMA2 < u < ALPHA - BETA && r == 15 * ALPHA + u + k * Q
    ensures HighBits(r) == 0 && LowBits(r) <= 0
  {
    var m := r % ALPHA;
    assert k == 0;
    assert r == 16 * ALPHA + (u - ALPHA);
    assert m == u;
  }
}
