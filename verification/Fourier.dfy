/**
 * The discrete Fourier transform over the Goldilocks field as a definition (a list of
 * evaluations at the powers of a root of unity), its inversion, and the radix-2 recursion.
 */
module Fourier {
  import opened Congruence
  import opened Evaluation
  import opened Goldilocks

  /** X[k] = sum over j of x[j] * w^(j*k), the definition every transform is measured against. */
  ghost function Dft(x: seq<Felt>, w: int): (r: seq<Felt>)
    ensures |r| == |x|
    ensures forall k | 0 <= k < |x| :: r[k] == Eval(x, Pow(w, k)) % P
  {
    seq(|x|, k requires 0 <= k < |x| => (Eval(x, Pow(w, k)) % P) as Felt)
  }

  function Scale(x: seq<Felt>, c: Felt): (r: seq<Felt>)
    ensures |r| == |x|
    ensures forall i | 0 <= i < |x| :: r[i] == FMul(x[i], c)
  {
    hide FMul;
    seq(|x|, i requires 0 <= i < |x| => FMul(x[i], c))
  }

  /** The transform depends on the root only through its class. */
  lemma DftRootCong(x: seq<Felt>, w: int, w': int)
    requires Cong(w, w', P)
    ensures Dft(x, w) == Dft(x, w')
  {
    forall k | 0 <= k < |x|
      ensures Dft(x, w)[k] == Dft(x, w')[k]
    {
      PowCong(w, w', k, P);
      EvalCong(x, x, Pow(w, k), Pow(w', k), P);
    }
  }

  // ----- orthogonality: the powers of w^d sum to 0 unless n divides d

  lemma {:induction false} RootPowersSumToZero(w: int, n: nat, d: nat)
    requires PowerOfTwo(n) && IsRoot(w, n) && 0 < d < n
    ensures Cong(Eval(Ones(n), Pow(w, d)), 0, P)
    decreases n
  {
    var h := n / 2;
    var y := Pow(w, d);
    var e := Eval(Ones(h), y);
    assert Ones(n) == Ones(h) + Ones(h);
    EvalConcat(Ones(h), Ones(h), y);
    if d % 2 == 1 {
      PowMul(w, d, h);
      PowMul(w, h, d);
      assert d * h == h * d;
      PowCong(Pow(w, h), -1, d, P);
      PowMinusOne(d);
      CongMul(Pow(y, h), -1, e, e, P);
      CongAdd(e, e, Pow(y, h) * e, -1 * e, P);
    } else {
      assert Pow(w, 2) == w * Pow(w, 1) == w * w;
      PowMul(w, 2, d / 2);
      RootSquare(w, n);
      RootPowersSumToZero(w * w, h, d / 2);
      CongMulLeft(Pow(y, h), e, 0, P);
      CongAdd(e, 0, Pow(y, h) * e, Pow(y, h) * 0, P);
    }
  }

  lemma EvalGeometric(n: nat, y: int, z: int)
    ensures Cong(Eval(Geometric(n, y), z), Eval(Ones(n), y * z), P)
  {
    EvalTwist(Ones(n), Geometric(n, y), y, 1, z, P);
  }

  /** Powers of a root and of its inverse cancel. */
  lemma InversePowers(w: int, v: int, t: nat, j: nat)
    requires Cong(w * v, 1, P)
    ensures t >= j ==> Cong(Pow(w, t) * Pow(v, j), Pow(w, t - j), P)
    ensures t <= j ==> Cong(Pow(w, t) * Pow(v, j), Pow(v, j - t), P)
  {
    var c := if t >= j then j else t;
    PowProduct(w, v, c);
    PowCong(w * v, 1, c, P);
    PowOne(c);
    var one := Pow(w, c) * Pow(v, c);
    assert Cong(one, 1, P);
    if t >= j {
      PowAdd(w, t - j, j);
      CongMulLeft(Pow(w, t - j), one, 1, P);
      MulAssoc(Pow(w, t - j), Pow(w, j), Pow(v, j));
    }
    if t <= j {
      PowAdd(v, t, j - t);
      CongMulLeft(Pow(v, j - t), one, 1, P);
      MulAssoc(Pow(w, t), Pow(v, t), Pow(v, j - t));
    }
  }

  /** Row t of one transform against column j of the other: n on the diagonal, 0 off it. */
  lemma Orthogonality(w: int, v: int, n: nat, t: nat, j: nat)
    requires PowerOfTwo(n) && IsRoot(w, n) && IsRoot(v, n) && Cong(w * v, 1, P)
    requires t < n && j < n
    ensures Cong(Eval(Geometric(n, Pow(w, t)), Pow(v, j)), if t == j then n else 0, P)
  {
    var y := Pow(w, t) * Pow(v, j);
    EvalGeometric(n, Pow(w, t), Pow(v, j));
    InversePowers(w, v, t, j);
    if t > j {
      EvalCong(Ones(n), Ones(n), y, Pow(w, t - j), P);
      RootPowersSumToZero(w, n, t - j);
    } else if t < j {
      EvalCong(Ones(n), Ones(n), y, Pow(v, j - t), P);
      RootPowersSumToZero(v, n, j - t);
    } else {
      EvalCong(Ones(n), Ones(n), y, 1, P);
      EvalOnesAtOne(n);
    }
  }

  /** The spectrum of the first t samples, unreduced. */
  ghost function Partial(x: seq<int>, w: int, t: nat): (r: seq<int>)
    requires t <= |x|
    ensures |r| == |x|
    ensures forall k | 0 <= k < |x| :: r[k] == Eval(x[..t], Pow(w, k))
  {
    seq(|x|, k requires 0 <= k < |x| => Eval(x[..t], Pow(w, k)))
  }

  lemma PartialStep(x: seq<int>, w: int, z: int, t: nat)
    requires t < |x|
    ensures Cong(Eval(Partial(x, w, t + 1), z),
                 Eval(Partial(x, w, t), z) + x[t] * Eval(Geometric(|x|, Pow(w, t)), z), P)
  {
    hide Cong, Eval, Pow;
    var a, g, c := Partial(x, w, t), Geometric(|x|, Pow(w, t)), Partial(x, w, t + 1);
    forall k | 0 <= k < |x|
      ensures Cong(c[k], a[k] + x[t] * g[k], P)
    {
      PartialStepAt(x, w, t, k);
    }
    EvalLinear(a, g, x[t], c, z, P);
  }

  lemma PartialStepAt(x: seq<int>, w: int, t: nat, k: nat)
    requires t < |x|
    ensures Cong(Eval(x[..t + 1], Pow(w, k)),
                 Eval(x[..t], Pow(w, k)) + x[t] * Pow(Pow(w, t), k), P)
  {
    assert x[..t + 1] == x[..t] + [x[t]];
    EvalSnoc(x[..t], x[t], Pow(w, k));
    PowMul(w, k, t);
    PowMul(w, t, k);
    assert k * t == t * k;
  }

  lemma {:induction false} PartialInverse(x: seq<int>, w: int, v: int, t: nat, j: nat)
    requires PowerOfTwo(|x|) && IsRoot(w, |x|) && IsRoot(v, |x|) && Cong(w * v, 1, P)
    requires t <= |x| && j < |x|
    ensures Cong(Eval(Partial(x, w, t), Pow(v, j)), if j < t then x[j] * |x| else 0, P)
    decreases t
  {
    hide Cong, Eval, Pow;
    var z := Pow(v, j);
    if t == 0 {
      EmptyPartial(x, w, z);
    } else {
      PartialInverse(x, w, v, t - 1, j);
      PartialStep(x, w, z, t - 1);
      Orthogonality(w, v, |x|, t - 1, j);
      Accumulate(Eval(Partial(x, w, t), z), Eval(Partial(x, w, t - 1), z),
                 if j < t - 1 then x[j] * |x| else 0,
                 x[t - 1], Eval(Geometric(|x|, Pow(w, t - 1)), z), if t - 1 == j then |x| else 0);
    }
  }

  lemma Accumulate(sum: int, before: int, known: int, c: int, g: int, o: int)
    requires Cong(sum, before + c * g, P) && Cong(before, known, P) && Cong(g, o, P)
    ensures Cong(sum, known + c * o, P)
  {
    CongMulLeft(c, g, o, P);
    CongAdd(before, known, c * g, c * o, P);
  }

  lemma EmptyPartial(x: seq<int>, w: int, z: int)
    ensures Cong(Eval(Partial(x, w, 0), z), 0, P)
  {
    EvalZeros(Partial(x, w, 0), z);
  }

  /** Inversion: transforming with w, then with its inverse v, then dividing by n, is the identity. */
  lemma DftInverse(x: seq<Felt>, w: int, v: int, ninv: Felt)
    requires PowerOfTwo(|x|) && IsRoot(w, |x|) && IsRoot(v, |x|)
    requires Cong(w * v, 1, P) && Cong(|x| * ninv, 1, P)
    ensures Scale(Dft(Dft(x, w), v), ninv) == x
  {
    hide FMul;
    var n := |x|;
    var X := Dft(x, w);
    forall j | 0 <= j < n
      ensures Scale(Dft(X, v), ninv)[j] == x[j]
    {
      var z := Pow(v, j);
      assert x[..n] == x;
      forall k | 0 <= k < n
        ensures Cong(X[k], Partial(x, w, n)[k], P)
      {
        CongMod(Eval(x, Pow(w, k)), P);
      }
      EvalCong(X, Partial(x, w, n), z, z, P);
      PartialInverse(x, w, v, n, j);
      var y := Dft(X, v)[j];
      CongMod(Eval(X, z), P);
      UndoScale(y, x[j], n, ninv);
    }
  }

  lemma UndoScale(y: Felt, x: Felt, n: int, ninv: Felt)
    requires Cong(y, x * n, P) && Cong(n * ninv, 1, P)
    ensures FMul(y, ninv) == x
  {
    hide FMul;
    FMulCong(y, ninv);
    CongMul(y, x * n, ninv, ninv, P);
    CongMulLeft(x, n * ninv, 1, P);
    MulAssoc(x, n, ninv);
    CongCanonical(FMul(y, ninv), x, P);
    CongCanonical(x, x, P);
  }

  // ----- the radix-2 recursion

  /** (u, v) at distance h becomes (u + s^k v, u - s^k v). */
  ghost function ButterflyAt(y: seq<Felt>, s: int, k: nat): Felt
    requires |y| % 2 == 0 && k < |y|
  {
    hide FMul, FAdd, FSub, FPow;
    var h := |y| / 2;
    if k < h then FAdd(y[k], FMul(y[k + h], FPow(s, k)))
    else FSub(y[k - h], FMul(y[k], FPow(s, k - h)))
  }

  /** One butterfly pass over a block. */
  ghost function Butterflies(y: seq<Felt>, s: int): (r: seq<Felt>)
    requires |y| % 2 == 0
    ensures |r| == |y|
    ensures forall k | 0 <= k < |y| :: r[k] == ButterflyAt(y, s, k)
  {
    hide ButterflyAt;
    seq(|y|, k requires 0 <= k < |y| => ButterflyAt(y, s, k))
  }

  ghost function FEvens(x: seq<Felt>): (r: seq<Felt>)
    requires |x| % 2 == 0
    ensures |r| == |x| / 2 && r == Evens(x)
  {
    seq(|x| / 2, i requires 0 <= i < |x| / 2 => x[2 * i])
  }

  ghost function FOdds(x: seq<Felt>): (r: seq<Felt>)
    requires |x| % 2 == 0
    ensures |r| == |x| / 2 && r == Odds(x)
  {
    seq(|x| / 2, i requires 0 <= i < |x| / 2 => x[2 * i + 1])
  }

  /** What a butterfly computes when its inputs are the half-size evaluations at x^2. */
  lemma ButterflyEval(a: seq<Felt>, x: int, c: Felt, u: Felt, v: Felt)
    requires |a| % 2 == 0 && Cong(c, x, P)
    requires Cong(u, Eval(Evens(a), x * x), P) && Cong(v, Eval(Odds(a), x * x), P)
    ensures Cong(FAdd(u, FMul(v, c)), Eval(a, x), P)
    ensures Cong(FSub(u, FMul(v, c)), Eval(a, -x), P)
  {
    hide FMul, FAdd, FSub;
    var e, o := Eval(Evens(a), x * x), Eval(Odds(a), x * x);
    var t := FMul(v, c);
    FMulCong(v, c);
    CongMul(v, o, c, x, P);
    assert o * x == x * o;
    EvalEvenOdd(a, x);
    FAddCong(u, t);
    CongAdd(u, e, t, x * o, P);
    EvalEvenOdd(a, -x);
    assert (-x) * (-x) == x * x && (-x) * o == -(x * o);
    FSubCong(u, t);
    CongSub(u, e, t, x * o, P);
  }

  /** Decimation in time: the transform of x is one butterfly pass over the two half transforms. */
  lemma DftDecimation(x: seq<Felt>, w: int)
    requires |x| > 1 && PowerOfTwo(|x|) && IsRoot(w, |x|)
    ensures Dft(x, w) == Butterflies(Dft(FEvens(x), w * w) + Dft(FOdds(x), w * w), w)
  {
    hide ButterflyAt, Dft, Butterflies, FEvens, FOdds, IsRoot, Eval, Pow, FAdd, FSub, FMul, FPow;
    var w2 := w * w;
    var e, o := Dft(FEvens(x), w2), Dft(FOdds(x), w2);
    var b := Butterflies(e + o, w);
    var h := |x| / 2;
    forall k | 0 <= k < |x|
      ensures Dft(x, w)[k] == b[k]
    {
      var j := if k < h then k else k - h;
      DecimationStep(x, w, w2, h, k, j, e[j], o[j]);
      ButterflyParts(e, o, w, h, k);
    }
  }

  lemma DecimationStep(x: seq<Felt>, w: int, w2: int, h: nat, k: nat, j: nat, u: Felt, v: Felt)
    requires |x| == 2 * h && IsRoot(w, 2 * h) && w2 == w * w && k < 2 * h && j < h && j == if k < h then k else k - h
    requires u == Dft(FEvens(x), w2)[j] && v == Dft(FOdds(x), w2)[j]
    ensures Dft(x, w)[k] == if k < h then FAdd(u, FMul(v, FPow(w, k))) else FSub(u, FMul(v, FPow(w, k - h)))
  {
    hide Dft, FEvens, FOdds, IsRoot, Eval, Pow, FAdd, FSub, FMul, FPow;
    DecimationAt(x, w, h, j, u, v);
  }

  lemma ButterflyParts(e: seq<Felt>, o: seq<Felt>, w: int, h: nat, k: nat)
    requires |e| == h && |o| == h && k < 2 * h
    ensures ButterflyAt(e + o, w, k)
            == if k < h then FAdd(e[k], FMul(o[k], FPow(w, k))) else FSub(e[k - h], FMul(o[k - h], FPow(w, k - h)))
  {
    hide FMul, FAdd, FSub, FPow;
  }

  lemma DecimationAt(x: seq<Felt>, w: int, h: nat, k: nat, u: Felt, v: Felt)
    requires |x| == 2 * h && IsRoot(w, 2 * h) && k < h
    requires u == Eval(Evens(x), Pow(w * w, k)) % P && v == Eval(Odds(x), Pow(w * w, k)) % P
    ensures Eval(x, Pow(w, k)) % P == FAdd(u, FMul(v, FPow(w, k)))
    ensures Eval(x, Pow(w, k + h)) % P == FSub(u, FMul(v, FPow(w, k)))
  {
    hide FMul, FAdd, FSub;
    var z := Pow(w, k);
    PowProduct(w, w, k);
    CongMod(Eval(Evens(x), z * z), P);
    CongMod(Eval(Odds(x), z * z), P);
    ButterflyEval(x, z, FPow(w, k), u, v);
    CongCanonical(FAdd(u, FMul(v, FPow(w, k))), Eval(x, z), P);
    PowAdd(w, k, h);
    CongMulLeft(z, Pow(w, h), -1, P);
    EvalCong(x, x, Pow(w, k + h), -z, P);
    CongCanonical(FSub(u, FMul(v, FPow(w, k))), Eval(x, Pow(w, k + h)), P);
  }
}
