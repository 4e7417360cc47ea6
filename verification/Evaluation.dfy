/**
 * Evaluation of a coefficient sequence at a point.  Both transforms are described by it: a
 * transform of length n is a list of evaluations, so every transform identity reduces to one
 * of the identities below.
 */
module Evaluation {
  import opened Congruence

  /** coeffs[0] + coeffs[1] * x + coeffs[2] * x^2 + ... */
  ghost function Eval(coeffs: seq<int>, x: int): int
  {
    if coeffs == [] then 0 else coeffs[0] + x * Eval(coeffs[1..], x)
  }

  lemma EvalUnfold(a: seq<int>, x: int)
    requires a != []
    ensures Eval(a, x) == a[0] + x * Eval(a[1..], x)
  {}

  lemma {:induction false} EvalConcat(a: seq<int>, b: seq<int>, x: int)
    ensures Eval(a + b, x) == Eval(a, x) + Pow(x, |a|) * Eval(b, x)
  {
    if a == [] {
      assert a + b == b;
    } else {
      assert (a + b)[1..] == a[1..] + b;
      EvalConcat(a[1..], b, x);
      MulDistr(x, Eval(a[1..], x), Pow(x, |a| - 1) * Eval(b, x));
      MulAssoc(x, Pow(x, |a| - 1), Eval(b, x));
    }
  }

  lemma EvalSingle(v: int, x: int)
    ensures Eval([v], x) == v
  {
    assert [v][1..] == [] && Eval([v][1..], x) == 0;
  }

  lemma EvalSnoc(a: seq<int>, v: int, x: int)
    ensures Eval(a + [v], x) == Eval(a, x) + v * Pow(x, |a|)
  {
    hide Eval, Pow;
    EvalConcat(a, [v], x);
    EvalSingle(v, x);
  }

  /** Evaluation respects congruence of the coefficients and of the point. */
  lemma {:induction false} EvalCong(a: seq<int>, b: seq<int>, x: int, y: int, m: int)
    requires m > 0 && |a| == |b| && Cong(x, y, m)
    requires forall i | 0 <= i < |a| :: Cong(a[i], b[i], m)
    ensures Cong(Eval(a, x), Eval(b, y), m)
  {
    if a != [] {
      hide Eval, Cong;
      EvalUnfold(a, x);
      EvalUnfold(b, y);
      EvalCong(a[1..], b[1..], x, y, m);
      CongMul(x, y, Eval(a[1..], x), Eval(b[1..], y), m);
      CongAdd(a[0], b[0], x * Eval(a[1..], x), y * Eval(b[1..], y), m);
    }
  }

  /** Evaluation is linear: c is a + k * b coefficient by coefficient, modulo m. */
  lemma {:induction false} EvalLinear(a: seq<int>, b: seq<int>, k: int, c: seq<int>, x: int, m: int)
    requires m > 0 && |a| == |b| == |c|
    requires forall i | 0 <= i < |a| :: Cong(c[i], a[i] + k * b[i], m)
    ensures Cong(Eval(c, x), Eval(a, x) + k * Eval(b, x), m)
  {
    if a != [] {
      hide Eval, Cong;
      EvalUnfold(a, x);
      EvalUnfold(b, x);
      EvalUnfold(c, x);
      EvalLinear(a[1..], b[1..], k, c[1..], x, m);
      assert Cong(c[0], a[0] + k * b[0], m);
      LinearStep(a[0], b[0], c[0], Eval(a[1..], x), Eval(b[1..], x), Eval(c[1..], x), k, x, m);
    }
  }

  lemma LinearStep(a: int, b: int, c: int, ea: int, eb: int, ec: int, k: int, x: int, m: int)
    requires m > 0 && Cong(c, a + k * b, m) && Cong(ec, ea + k * eb, m)
    ensures Cong(c + x * ec, a + x * ea + k * (b + x * eb), m)
  {
    CongMulLeft(x, ec, ea + k * eb, m);
    CongAdd(c, a + k * b, x * ec, x * (ea + k * eb), m);
    assert a + k * b + x * (ea + k * eb) == a + x * ea + k * (b + x * eb);
  }

  /** Scaling coefficient i by u * s^i moves the evaluation point by the factor s. */
  lemma {:induction false} EvalTwist(a: seq<int>, b: seq<int>, s: int, u: int, x: int, m: int)
    requires m > 0 && |a| == |b|
    requires forall i | 0 <= i < |a| :: Cong(b[i], u * Pow(s, i) * a[i], m)
    ensures Cong(Eval(b, x), u * Eval(a, s * x), m)
  {
    if a != [] {
      forall i | 0 <= i < |a| - 1
        ensures Cong(b[1..][i], (u * s) * Pow(s, i) * a[1..][i], m)
      {
        assert Cong(b[i + 1], u * Pow(s, i + 1) * a[i + 1], m);
        MulAssoc(u, s, Pow(s, i));
      }
      EvalTwist(a[1..], b[1..], s, u * s, x, m);
      assert Cong(b[0], u * Pow(s, 0) * a[0], m);
      TwistStep(a[0], b[0], Eval(a[1..], s * x), Eval(b[1..], x), s, u, x, m);
    }
  }

  lemma TwistStep(a: int, b: int, ea: int, eb: int, s: int, u: int, x: int, m: int)
    requires m > 0 && Cong(b, u * a, m) && Cong(eb, (u * s) * ea, m)
    ensures Cong(b + x * eb, u * (a + (s * x) * ea), m)
  {
    CongMulLeft(x, eb, (u * s) * ea, m);
    CongAdd(b, u * a, x * eb, x * ((u * s) * ea), m);
    assert u * a + x * ((u * s) * ea) == u * (a + (s * x) * ea);
  }

  // ----- even and odd coefficients

  ghost function Evens(a: seq<int>): (r: seq<int>)
    requires |a| % 2 == 0
    ensures |r| == |a| / 2
    ensures forall i | 0 <= i < |r| :: r[i] == a[2 * i]
  {
    seq(|a| / 2, i requires 0 <= i < |a| / 2 => a[2 * i])
  }

  ghost function Odds(a: seq<int>): (r: seq<int>)
    requires |a| % 2 == 0
    ensures |r| == |a| / 2
    ensures forall i | 0 <= i < |r| :: r[i] == a[2 * i + 1]
  {
    seq(|a| / 2, i requires 0 <= i < |a| / 2 => a[2 * i + 1])
  }

  /** f(x) = e(x^2) + x * o(x^2), the identity behind the butterfly and behind FRI folding. */
  lemma {:induction false} EvalEvenOdd(a: seq<int>, x: int)
    requires |a| % 2 == 0
    ensures Eval(a, x) == Eval(Evens(a), x * x) + x * Eval(Odds(a), x * x)
  {
    if a != [] {
      var t := a[2..];
      EvalEvenOdd(t, x);
      assert Evens(a)[1..] == Evens(t);
      assert Odds(a)[1..] == Odds(t);
      assert a[1..][1..] == t;
      var e, o, s := Eval(Evens(t), x * x), Eval(Odds(t), x * x), Eval(t, x);
      calc {
        Eval(a, x);
        a[0] + x * Eval(a[1..], x);
        a[0] + x * (a[1] + x * s);
        a[0] + x * (a[1] + x * (e + x * o));
        { EvenOddStep(a[0], a[1], e, o, x); }
        (a[0] + (x * x) * e) + x * (a[1] + (x * x) * o);
        Eval(Evens(a), x * x) + x * Eval(Odds(a), x * x);
      }
    }
  }

  lemma EvenOddStep(a: int, b: int, e: int, o: int, x: int)
    ensures a + x * (b + x * (e + x * o)) == (a + (x * x) * e) + x * (b + (x * x) * o)
  {
    assert x * (e + x * o) == x * e + (x * x) * o;
    assert x * (b + (x * e + (x * x) * o)) == x * b + (x * x) * e + x * ((x * x) * o);
  }

  lemma {:induction false} EvalZeros(a: seq<int>, x: int)
    requires forall i | 0 <= i < |a| :: a[i] == 0
    ensures Eval(a, x) == 0
  {
    if a != [] { EvalZeros(a[1..], x); }
  }

  // ----- geometric sequences

  ghost function Geometric(n: nat, y: int): (r: seq<int>)
    ensures |r| == n && forall i | 0 <= i < n :: r[i] == Pow(y, i)
  {
    seq(n, i requires 0 <= i < n => Pow(y, i))
  }

  ghost function Ones(n: nat): (r: seq<int>)
    ensures |r| == n && forall i | 0 <= i < n :: r[i] == 1
  {
    seq(n, i => 1)
  }

  lemma {:induction false} EvalOnesAtOne(n: nat)
    ensures Eval(Ones(n), 1) == n
  {
    if n > 0 {
      assert Ones(n)[1..] == Ones(n - 1);
      EvalOnesAtOne(n - 1);
    }
  }
}
