/** Congruences modulo m and integer powers: the arithmetic both transform engines rest on. */
module Congruence {

  ghost predicate Cong(a: int, b: int, m: int)
    requires m > 0
  {
    a % m == b % m
  }

  ghost function Pow(b: int, e: nat): int
  {
    if e == 0 then 1 else b * Pow(b, e - 1)
  }

  // ----- quotients and remainders

  lemma MulAtLeast(k: int, m: int)
    requires m > 0
    ensures k >= 1 ==> k * m >= m
    ensures k <= -1 ==> k * m <= -m
  {}

  /** The quotient and remainder of a are unique. */
  lemma DivModUnique(a: int, q: int, r: int, m: int)
    requires m > 0 && a == q * m + r && 0 <= r < m
    ensures a / m == q && a % m == r
  {
    var k := a / m - q;
    assert k * m == r - a % m by {
      assert a == (a / m) * m + a % m;
      assert k * m == (a / m) * m - q * m;
    }
    MulAtLeast(k, m);
  }

  lemma CongIntro(a: int, b: int, k: int, m: int)
    requires m > 0 && a == b + k * m
    ensures Cong(a, b, m)
  {
    var q := b / m;
    assert b == q * m + b % m;
    assert a == (q + k) * m + b % m;
    DivModUnique(a, q + k, b % m, m);
  }

  lemma CongElim(a: int, b: int, m: int) returns (k: int)
    requires m > 0 && Cong(a, b, m)
    ensures a == b + k * m
  {
    k := a / m - b / m;
    assert a == (a / m) * m + a % m;
    assert b == (b / m) * m + b % m;
    assert k * m == (a / m) * m - (b / m) * m;
  }

  lemma CongMod(a: int, m: int)
    requires m > 0
    ensures Cong(a % m, a, m)
  {
    assert a == (a / m) * m + a % m;
    CongIntro(a, a % m, a / m, m);
  }

  /** A canonical residue is determined by its class. */
  lemma CongCanonical(a: int, b: int, m: int)
    requires m > 0 && Cong(a, b, m) && 0 <= a < m
    ensures a == b % m
  {
    DivModUnique(a, 0, a, m);
  }

  lemma CongAdd(a: int, a': int, b: int, b': int, m: int)
    requires m > 0 && Cong(a, a', m) && Cong(b, b', m)
    ensures Cong(a + b, a' + b', m)
  {
    var j := CongElim(a, a', m);
    var k := CongElim(b, b', m);
    assert (j + k) * m == j * m + k * m;
    CongIntro(a + b, a' + b', j + k, m);
  }

  lemma CongSub(a: int, a': int, b: int, b': int, m: int)
    requires m > 0 && Cong(a, a', m) && Cong(b, b', m)
    ensures Cong(a - b, a' - b', m)
  {
    var j := CongElim(a, a', m);
    var k := CongElim(b, b', m);
    assert (j - k) * m == j * m - k * m;
    CongIntro(a - b, a' - b', j - k, m);
  }

  lemma CongMulLeft(c: int, a: int, b: int, m: int)
    requires m > 0 && Cong(a, b, m)
    ensures Cong(c * a, c * b, m)
  {
    var k := CongElim(a, b, m);
    assert c * a == c * b + (c * k) * m;
    CongIntro(c * a, c * b, c * k, m);
  }

  lemma CongMul(a: int, a': int, b: int, b': int, m: int)
    requires m > 0 && Cong(a, a', m) && Cong(b, b', m)
    ensures Cong(a * b, a' * b', m)
  {
    CongMulLeft(a, b, b', m);
    CongMulLeft(b', a, a', m);
    assert b' * a == a * b' && b' * a' == a' * b';
  }

  // ----- regrouping products

  lemma MulAssoc(a: int, b: int, c: int)
    ensures a * (b * c) == (a * b) * c
  {}

  lemma MulSwap(a: int, b: int, c: int, d: int)
    ensures (a * b) * (c * d) == (a * c) * (b * d)
  {}

  lemma MulDistr(a: int, b: int, c: int)
    ensures a * (b + c) == a * b + a * c
    ensures a * (b - c) == a * b - a * c
  {}

  // ----- powers

  lemma {:induction false} PowAdd(b: int, d: nat, e: nat)
    ensures Pow(b, d + e) == Pow(b, d) * Pow(b, e)
  {
    if d > 0 {
      PowAdd(b, d - 1, e);
      MulAssoc(b, Pow(b, d - 1), Pow(b, e));
    }
  }

  lemma {:induction false} PowMul(b: int, d: nat, e: nat)
    ensures d * e >= 0 && Pow(b, d * e) == Pow(Pow(b, d), e)
    decreases e
  {
    if e > 0 {
      PowMul(b, d, e - 1);
      assert d * e == d + d * (e - 1);
      PowAdd(b, d, d * (e - 1));
    } else {
      assert d * e == 0;
    }
  }

  lemma {:induction false} PowProduct(a: int, b: int, e: nat)
    ensures Pow(a * b, e) == Pow(a, e) * Pow(b, e)
  {
    if e > 0 {
      PowProduct(a, b, e - 1);
      MulSwap(a, b, Pow(a, e - 1), Pow(b, e - 1));
    }
  }

  lemma {:induction false} PowOne(e: nat)
    ensures Pow(1, e) == 1
  {
    if e > 0 { PowOne(e - 1); }
  }

  lemma {:induction false} PowMinusOne(e: nat)
    ensures Pow(-1, e) == if e % 2 == 0 then 1 else -1
  {
    if e > 0 { PowMinusOne(e - 1); }
  }

  lemma {:induction false} PowCong(a: int, b: int, e: nat, m: int)
    requires m > 0 && Cong(a, b, m)
    ensures Cong(Pow(a, e), Pow(b, e), m)
  {
    if e > 0 {
      PowCong(a, b, e - 1, m);
      CongMul(a, b, Pow(a, e - 1), Pow(b, e - 1), m);
    }
  }

  /** If b^e is 1, then every multiple of e is an exponent of 1. */
  lemma PowPeriod(b: int, e: nat, k: nat, m: int)
    requires m > 0 && Cong(Pow(b, e), 1, m)
    ensures e * k >= 0 && Cong(Pow(b, e * k), 1, m)
  {
    PowMul(b, e, k);
    PowCong(Pow(b, e), 1, k, m);
    PowOne(k);
  }
}
