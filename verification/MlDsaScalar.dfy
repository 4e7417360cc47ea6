/**
 * Scalar arithmetic of solomon-core/src/crypto/scalar.rs: signed 32-bit words, sign masks, and
 * Montgomery reduction modulo q = 8380417 with radix 2^32.
 */
module MlDsaScalar {
  import opened Congruence

  const Q: int := 8_380_417

  /** Coefficients per polynomial. */
  const N := 256

  const Q_INV: int := 58_728_449
  const RADIX: int := 0x1_0000_0000
  const HALF_RADIX: int := 0x8000_0000

  /** 2^32 mod q, the constant 4193792 of the source, and its inverse. */
  const MONT: int := 4_193_792
  const MONT_INV: int := 8_265_825

  /** A canonical residue. */
  type Zq = x: int | 0 <= x < Q

  /** A canonical residue other than 0. */
  type Unit = x: int | 0 < x < Q witness 1

  /** A PolyVector: n polynomials of 256 coefficients. */
  predicate IsVector(v: seq<seq<Zq>>, n: nat)
  {
    |v| == n && forall i | 0 <= i < n :: |v[i]| == N
  }

  predicate IsI32(x: int) { -HALF_RADIX <= x < HALF_RADIX }

  /** Truncation of a wider integer to 32 bits, as Rust's `as i32` and wrapping operations. */
  function ToI32(x: int): (r: int)
    ensures IsI32(r)
  {
    (x + HALF_RADIX) % RADIX - HALF_RADIX
  }

  /** x >> 31 on a 32-bit word: all ones when negative, zero otherwise. */
  function SignMask(x: int): int
    requires IsI32(x)
  {
    x / HALF_RADIX
  }

  /** v & mask, for a mask of all ones or all zeros. */
  function Masked(v: int, mask: int): int
    requires mask == 0 || mask == -1
  {
    if mask == -1 then v else 0
  }

  lemma SignMaskSelects(x: int)
    requires IsI32(x)
    ensures SignMask(x) == if x < 0 then -1 else 0
  {}

  function MontgomeryReduce(prod: int): int
  {
    var u := ToI32(ToI32(prod) * Q_INV);
    var t0 := ToI32((prod - u * Q) / RADIX);
    SignMaskSelects(t0);
    var t1 := t0 + Masked(Q, SignMask(t0));
    if !IsI32(t1 - Q) then t1 - Q
    else
      SignMaskSelects(t1 - Q);
      t1 - Q + Masked(Q, SignMask(t1 - Q))
  }

  lemma ToI32Cong(x: int) returns (k: int)
    ensures ToI32(x) == x + k * RADIX
  {
    k := -((x + HALF_RADIX) / RADIX);
  }

  /** The multiple of q subtracted makes the low word vanish, so the shift is exact. */
  lemma ReductionIsExact(prod: int) returns (t: int)
    ensures prod - ToI32(ToI32(prod) * Q_INV) * Q == t * RADIX
  {
    var j := ToI32Cong(prod);
    var k := ToI32Cong(ToI32(prod) * Q_INV);
    var low := ToI32(prod);
    t := -j - low * 114_592 - k * Q;
    assert Q_INV * Q == 1 + 114_592 * RADIX;
    assert (low * Q_INV + k * RADIX) * Q == low * (Q_INV * Q) + (k * Q) * RADIX;
    assert low * (1 + 114_592 * RADIX) == low + (low * 114_592) * RADIX;
  }

  /**
   * Montgomery reduction: for products within 2^31 * q the result is the canonical residue of
   * prod / 2^32.
   */
  lemma MontgomeryReduceCorrect(prod: int)
    requires -HALF_RADIX * Q <= prod <= HALF_RADIX * Q
    ensures 0 <= MontgomeryReduce(prod) < Q
    ensures Cong(MontgomeryReduce(prod) * RADIX, prod, Q)
  {
    var u := ToI32(ToI32(prod) * Q_INV);
    var t := ReductionIsExact(prod);
    assert (prod - u * Q) / RADIX == t;
    assert -Q <= t <= Q;
    assert ToI32(t) == t;
    var r := MontgomeryReduce(prod);
    var d := if t < 0 then 1 else if t == Q then -1 else 0;
    assert r == t + d * Q;
    assert r * RADIX == prod + (d * RADIX - u) * Q;
    CongIntro(r * RADIX, prod, d * RADIX - u, Q);
  }

  lemma MontgomeryConstants()
    ensures Cong(RADIX, MONT, Q) && Cong(RADIX * MONT_INV, 1, Q) && Cong(MONT * MONT_INV, 1, Q)
  {
    CongIntro(RADIX, MONT, 512, Q);
    assert RADIX * MONT_INV == 1 + 4_236_238_847 * Q;
    CongIntro(RADIX * MONT_INV, 1, 4_236_238_847, Q);
    assert MONT * MONT_INV == 1 + 4_136_447 * Q;
    CongIntro(MONT * MONT_INV, 1, 4_136_447, Q);
  }

  lemma ProductInRange(a: Zq, b: Zq)
    ensures 0 <= a * b <= HALF_RADIX * Q
  {
    assert a * b <= Q * b <= Q * Q;
  }

  /** Scalar multiplication: a * b / 2^32. */
  function SMul(a: Zq, b: Zq): Zq
  {
    ProductInRange(a, b);
    MontgomeryReduceCorrect(a * b);
    MontgomeryReduce(a * b)
  }

  lemma SMulCong(a: Zq, b: Zq)
    ensures Cong(SMul(a, b), a * b * MONT_INV, Q)
  {
    ProductInRange(a, b);
    MontgomeryReduceCorrect(a * b);
    MontgomeryConstants();
    DivideByRadix(SMul(a, b), a * b);
  }

  lemma DivideByRadix(r: int, p: int)
    requires Cong(r * RADIX, p, Q)
    ensures Cong(r, p * MONT_INV, Q)
  {
    MontgomeryConstants();
    CongMul(r * RADIX, p, MONT_INV, MONT_INV, Q);
    CongMulLeft(r, RADIX * MONT_INV, 1, Q);
    MulAssoc(r, RADIX, MONT_INV);
  }

  /** Scalar addition with one conditional correction selected by the sign mask. */
  function SAdd(a: Zq, b: Zq): Zq
  {
    var diff := a + b - Q;
    SignMaskSelects(diff);
    diff + Masked(Q, SignMask(diff))
  }

  function SSub(a: Zq, b: Zq): Zq
  {
    var diff := a - b;
    SignMaskSelects(diff);
    diff + Masked(Q, SignMask(diff))
  }

  /** neg: q - a masked to zero when a is zero; (a | -a) is negative exactly when a is not zero. */
  function SNeg(a: Zq): Zq
  {
    Masked(Q - a, if a != 0 then -1 else 0)
  }

  lemma SAddCong(a: Zq, b: Zq)
    ensures Cong(SAdd(a, b), a + b, Q)
  {
    CongIntro(SAdd(a, b), a + b, if a + b < Q then 0 else -1, Q);
  }

  lemma SSubCong(a: Zq, b: Zq)
    ensures Cong(SSub(a, b), a - b, Q)
  {
    CongIntro(SSub(a, b), a - b, if a >= b then 0 else 1, Q);
  }

  lemma SNegCong(a: Zq)
    ensures Cong(SNeg(a), 0 - a, Q)
  {
    CongIntro(SNeg(a), 0 - a, if a == 0 then 0 else 1, Q);
  }

  /** Canonical residues in one class are equal. */
  lemma ZqUnique(a: Zq, b: Zq)
    requires Cong(a, b, Q)
    ensures a == b
  {
    CongCanonical(a, b, Q);
    CongCanonical(b, b, Q);
  }
}
