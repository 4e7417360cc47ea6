/**
 * generate_lde of solomon-zk/src/lde.rs: interpolation, zero padding and evaluation on the larger
 * domain. Since compute_intt leaves its result in bit-reversed order, padding behind it spreads the
 * coefficients out, and what comes back is the input, repeated.
 */
module DomainExtension {
  import opened Congruence
  import opened Evaluation
  import opened Goldilocks
  import opened Fourier
  import opened RadixTwo
  import opened FourStep
  import opened LowDegreeExtension
  import opened FrequencyDecimation

  ghost function Zeros(n: nat): (r: seq<Felt>)
    ensures |r| == n && forall i | 0 <= i < n :: r[i] == 0
  {
    seq(n, _ => 0)
  }

  /** The lengths get_root_of_unity accepts before and after padding. */
  ghost predicate Extendable(n: nat, blowup: nat)
  {
    n > 0 && blowup > 0 && Length(n) && Length(Times(n, blowup))
  }

  ghost function Lde(x: seq<Felt>, blowup: nat): seq<Felt>
    requires Extendable(|x|, blowup)
  {
    hide Intt, ForwardNtt, PowerOfTwo;
    InttLength(x);
    MoreThan(|x|, blowup);
    ForwardNtt(Intt(x) + Zeros(Times(|x|, blowup) - |x|))
  }

  lemma InttLength(x: seq<Felt>)
    requires Length(|x|)
    ensures |Intt(x)| == |x|
  {
    hide Intt, ForwardNtt, PowerOfTwo;
    ForwardUndoesIntt(x);
  }

  lemma MoreThan(n: nat, blowup: nat)
    requires blowup > 0
    ensures Times(n, blowup) >= n
  {
    assert n * blowup == n + n * (blowup - 1);
  }

  /** generate_lde, for the lengths at which get_root_of_unity does not stop the program. */
  method GenerateLde(x: seq<Felt>, blowup: nat) returns (r: seq<Felt>)
    requires |x| <= 1 || Length(|x|)
    requires Times(|x|, blowup) <= 1 || Length(Times(|x|, blowup))
    ensures Times(|x|, blowup) == 0 ==> r == []
    ensures Times(|x|, blowup) > 0 ==> Extendable(|x|, blowup) && r == Lde(x, blowup)
  {
    hide InversePasses, ForwardPasses, PowerOfTwo, Root, FInv, Scale, FromU64;
    var n := |x|;
    var coefficients := new Felt[n](i requires 0 <= i < n => x[i]);
    assert coefficients[..] == x;
    ComputeIntt(coefficients);
    var c := coefficients[..];
    var extended := n * blowup;
    var padded := new Felt[extended](i requires 0 <= i < extended => if i < n then c[i] else 0);
    if extended > 0 {
      SmallLengths(n, blowup);
      MoreThan(n, blowup);
      assert c == Intt(x);
      assert padded[..] == c + Zeros(extended - n);
    }
    ComputeForwardNtt(padded);
    r := padded[..];
  }

  lemma SmallLengths(n: nat, blowup: nat)
    requires n <= 1 || Length(n)
    requires Times(n, blowup) <= 1 || Length(Times(n, blowup))
    requires Times(n, blowup) > 0
    ensures Extendable(n, blowup)
  {
    assert n == 0 ==> n * blowup == 0;
    assert blowup == 0 ==> n * blowup == 0;
    OneIsLength();
  }

  lemma OneIsLength()
    ensures Length(1)
  {}

  // ----- passes on zeros, on multiples and at an equal root

  lemma {:induction false} DifZeros(n: nat, w: int, ratio: nat, b: nat)
    requires PowerOfTwo(n)
    ensures Dif(Zeros(n), w, ratio, b) == Zeros(n)
    decreases n
  {
    hide FPow, Dif, Block, Times, PowerOfTwo;
    var y := Zeros(n);
    PowerHalves(n);
    if n == 1 {
      DifOne(y, w, ratio, b);
    } else {
      DifUnfold(y, w, ratio, b);
      var h := n / 2;
      var g := Block(GentlemanSande, y, FPow(w, ratio), Times(b, h));
      ZeroBlock(n, FPow(w, ratio), Times(b, h));
      assert g[..h] == Zeros(h) && g[h..] == Zeros(h);
      DifZeros(h, w, 2 * ratio, 2 * b);
      DifZeros(h, w, 2 * ratio, 2 * b + 1);
    }
  }

  lemma DifOne(y: seq<Felt>, w: int, ratio: nat, b: nat)
    requires |y| == 1
    ensures PowerOfTwo(1) && Dif(y, w, ratio, b) == y
  {}

  lemma ZeroBlock(n: nat, s: int, start: nat)
    requires n % 2 == 0
    ensures Block(GentlemanSande, Zeros(n), s, start) == Zeros(n)
  {
    hide FPow, FAdd, FSub, FMul;
    forall k | 0 <= k < n
      ensures Block(GentlemanSande, Zeros(n), s, start)[k] == 0
    {
      ZeroButterfly(if k < n / 2 then 0 else FPow(s, start + k - n / 2));
    }
  }

  lemma ZeroButterfly(w: Felt)
    ensures FAdd(0, 0) == 0 && FMul(FSub(0, 0), w) == 0
  {
    FAddValue(0, 0);
    FSubValue(0, 0);
    FMulValue(0, w);
  }

  lemma {:induction false} DifScaled(z: seq<Felt>, y: seq<Felt>, c: int, w: int, ratio: nat, b: nat)
    requires PowerOfTwo(|y|) && ScaledBy(z, y, c)
    ensures ScaledBy(Dif(z, w, ratio, b), Dif(y, w, ratio, b), c)
    decreases |y|
  {
    hide FPow, Dif, Block, Times, PowerOfTwo, Cong;
    PowerHalves(|y|);
    if |y| == 1 {
      DifOne(y, w, ratio, b);
      DifOne(z, w, ratio, b);
    } else {
      var h, s := |y| / 2, FPow(w, ratio);
      DifUnfold(y, w, ratio, b);
      DifUnfold(z, w, ratio, b);
      var g, f := Block(GentlemanSande, y, s, Times(b, h)), Block(GentlemanSande, z, s, Times(b, h));
      BlockScaled(z, y, c, s, Times(b, h));
      assert ScaledBy(f[..h], g[..h], c) && ScaledBy(f[h..], g[h..], c);
      DifScaled(f[..h], g[..h], c, w, 2 * ratio, 2 * b);
      DifScaled(f[h..], g[h..], c, w, 2 * ratio, 2 * b + 1);
      ScaledConcat(Dif(f[..h], w, 2 * ratio, 2 * b), Dif(f[h..], w, 2 * ratio, 2 * b + 1),
                   Dif(g[..h], w, 2 * ratio, 2 * b), Dif(g[h..], w, 2 * ratio, 2 * b + 1), c);
    }
  }

  lemma BlockScaled(z: seq<Felt>, y: seq<Felt>, c: int, s: int, start: nat)
    requires |y| % 2 == 0 && ScaledBy(z, y, c)
    ensures ScaledBy(Block(GentlemanSande, z, s, start), Block(GentlemanSande, y, s, start), c)
  {
    hide FPow, FAdd, FSub, FMul, Cong;
    var h := |y| / 2;
    forall k | 0 <= k < |y|
      ensures Cong(Block(GentlemanSande, z, s, start)[k], c * Block(GentlemanSande, y, s, start)[k], P)
    {
      var j := if k < h then k else k - h;
      assert Cong(z[j], c * y[j], P) && Cong(z[j + h], c * y[j + h], P);
      ScaledButterfly(z[j], z[j + h], y[j], y[j + h], c, FPow(s, start + j));
    }
  }

  lemma ScaledButterfly(u: Felt, v: Felt, u': Felt, v': Felt, c: int, w: Felt)
    requires Cong(u, c * u', P) && Cong(v, c * v', P)
    ensures Cong(FAdd(u, v), c * FAdd(u', v'), P)
    ensures Cong(FMul(FSub(u, v), w), c * FMul(FSub(u', v'), w), P)
  {
    hide FAdd, FSub, FMul;
    FAddCong(u, v);
    FAddCong(u', v');
    CongAdd(u, c * u', v, c * v', P);
    CongMulLeft(c, FAdd(u', v'), u' + v', P);
    FSubCong(u, v);
    FSubCong(u', v');
    CongSub(u, c * u', v, c * v', P);
    CongMulLeft(c, FSub(u', v'), u' - v', P);
    assert c * (u' + v') == c * u' + c * v' && c * (u' - v') == c * u' - c * v';
    ScaledProduct(FSub(u, v), FSub(u', v'), c, w);
  }

  lemma ScaledProduct(d: Felt, d': Felt, c: int, w: Felt)
    requires Cong(d, c * d', P)
    ensures Cong(FMul(d, w), c * FMul(d', w), P)
  {
    hide FMul;
    FMulCong(d, w);
    FMulCong(d', w);
    CongMul(d, c * d', w, w, P);
    CongMulLeft(c, FMul(d', w), d' * w, P);
    assert (c * d') * w == c * (d' * w);
  }

  lemma {:induction false} DifRoot(y: seq<Felt>, w: int, ratio: nat, w': int, ratio': nat, b: nat)
    requires PowerOfTwo(|y|) && FPow(w, ratio) == FPow(w', ratio')
    ensures Dif(y, w, ratio, b) == Dif(y, w', ratio', b)
    decreases |y|
  {
    hide FPow, Dif, Block, Times, PowerOfTwo;
    PowerHalves(|y|);
    if |y| == 1 {
      DifOne(y, w, ratio, b);
      DifOne(y, w', ratio', b);
    } else {
      var h := |y| / 2;
      DifUnfold(y, w, ratio, b);
      DifUnfold(y, w', ratio', b);
      var g := Block(GentlemanSande, y, FPow(w, ratio), Times(b, h));
      SameDouble(w, ratio, w', ratio');
      DifRoot(g[..h], w, 2 * ratio, w', 2 * ratio', 2 * b);
      DifRoot(g[h..], w, 2 * ratio, w', 2 * ratio', 2 * b + 1);
    }
  }

  lemma SameDouble(w: int, ratio: nat, w': int, ratio': nat)
    requires FPow(w, ratio) == FPow(w', ratio')
    ensures FPow(w, 2 * ratio) == FPow(w', 2 * ratio')
  {
    hide FPow;
    DoubledRatio(w, ratio);
    DoubledRatio(w', ratio');
    CongCanonical(FPow(w, 2 * ratio), FPow(w', 2 * ratio'), P);
    CongCanonical(FPow(w', 2 * ratio'), FPow(w', 2 * ratio'), P);
  }

  // ----- two equal halves

  lemma EqualPair(u: seq<Felt>, s: int, k: nat)
    requires k < |u|
    ensures var g := Block(GentlemanSande, u + u, s, 0);
            |g| == 2 * |u| && Cong(g[k], Twice(u[k]), P) && g[k + |u|] == 0
  {
    hide FPow, FAdd, FSub, FMul, BlockAt, Cong;
    var x, m := u + u, |u|;
    assert x[k] == u[k] && x[k + m] == u[k];
    BlockPair(GentlemanSande, x, s, 0, k);
    FAddCong(u[k], u[k]);
    EqualDifference(u[k], FPow(s, k));
  }

  lemma EqualHalves(u: seq<Felt>, s: int)
    requires |u| > 0
    ensures var g := Block(GentlemanSande, u + u, s, 0);
            |g| == 2 * |u| && ScaledBy(g[..|u|], u, 2) && g[|u|..] == Zeros(|u|)
  {
    hide Cong, Block;
    var m, g := |u|, Block(GentlemanSande, u + u, s, 0);
    EqualPair(u, s, 0);
    forall k | 0 <= k < m
      ensures Cong(g[..m][k], Twice(u[k]), P)
    {
      EqualPair(u, s, k);
    }
    forall k | 0 <= k < m
      ensures g[m..][k] == 0
    {
      EqualPair(u, s, k);
    }
  }

  ghost function Twice(a: int): int { 2 * a }

  lemma EqualDifference(a: Felt, w: Felt)
    ensures FMul(FSub(a, a), w) == 0
  {
    FSubValue(a, a);
    FMulValue(0, w);
  }

  /** Twice the reciprocal of 2m is the reciprocal of m. */
  lemma HalfReciprocal(m: nat, n: nat)
    requires n == 2 * m && m > 0 && Length(m) && Length(n)
    ensures Cong(2 * FInv(FromU64(n)), FInv(FromU64(m)), P)
  {
    hide FInv, FromU64, PowerOfTwo;
    LengthInverse(m);
    LengthInverse(n);
    Reciprocals(m, FInv(FromU64(m)), FInv(FromU64(n)));
  }

  lemma Reciprocals(m: int, a: int, b: int)
    requires Cong(m * a, 1, P) && Cong((2 * m) * b, 1, P)
    ensures Cong(2 * b, a, P)
  {
    CongMulLeft(a, (2 * m) * b, 1, P);
    CongMulLeft(2 * b, m * a, 1, P);
    assert a * ((2 * m) * b) == (2 * b) * (m * a);
  }

  lemma HalfInverseRoot(m: nat, n: nat)
    requires n == 2 * m && m > 0 && Length(m) && Length(n)
    ensures FPow(FInv(Root(n)), 2) == FPow(FInv(Root(m)), 1)
  {
    hide Root, FInv;
    assert PowerOfTwo(2);
    SubRoot(n, m, 2);
    assert Pow(FInv(Root(m)), 1) == FInv(Root(m)) * Pow(FInv(Root(m)), 0);
  }

  /** The interpolation of a sequence repeated: that of the sequence, and zeros. */
  lemma InttOfTwice(u: seq<Felt>)
    requires |u| > 0 && Length(|u|) && Length(2 * |u|)
    ensures Intt(u + u) == Intt(u) + Zeros(|u|)
  {
    hide PowerOfTwo, FInv, Root, FromU64, Dif, FPow, Block, Intt, Scale, Cong;
    var m, n := |u|, 2 * |u|;
    var w, c := FInv(Root(n)), FInv(FromU64(n));
    InttIsDif(u + u);
    DifUnfold(u + u, w, 1, 0);
    var g := Block(GentlemanSande, u + u, FPow(w, 1), Times(0, m));
    EqualHalves(u, FPow(w, 1));
    DifZeros(m, w, 2, 1);
    var v := FInv(Root(m));
    HalfInverseRoot(m, n);
    DifScaled(g[..m], u, 2, w, 2, 0);
    DifRoot(u, w, 2, v, 1, 0);
    HalfReciprocal(m, n);
    TwiceScaled(Dif(g[..m], w, 2, 0), Dif(u, v, 1, 0), c, FInv(FromU64(m)));
    ScaleParts(Dif(g[..m], w, 2, 0), m, c);
    InttOfDif(u);
  }

  lemma InttOfDif(u: seq<Felt>)
    requires Length(|u|)
    ensures Intt(u) == Scale(Dif(u, FInv(Root(|u|)), 1, 0), FInv(FromU64(|u|)))
  {
    hide PowerOfTwo, FInv, Root, FromU64, Scale, Dif;
    LengthPositive(|u|);
    if |u| == 1 { UnitScale(u); } else { InttIsDif(u); }
  }

  lemma UnitScale(u: seq<Felt>)
    requires |u| == 1
    ensures Length(1) && Scale(Dif(u, FInv(Root(1)), 1, 0), FInv(FromU64(1))) == u
  {
    hide FInv, Root, FMul, FromU64;
    DifOne(u, FInv(Root(1)), 1, 0);
    LengthInverse(1);
    FMulValue(u[0], FInv(FromU64(1)));
    CongMulLeft(u[0], 1 * FInv(FromU64(1)), 1, P);
    assert u[0] * FInv(FromU64(1)) % P == u[0] % P;
  }

  lemma TwiceScaled(z: seq<Felt>, y: seq<Felt>, c: Felt, a: Felt)
    requires ScaledBy(z, y, 2) && Cong(2 * c, a, P)
    ensures Scale(z, c) == Scale(y, a)
  {
    hide FMul, Cong;
    forall i | 0 <= i < |y|
      ensures Scale(z, c)[i] == Scale(y, a)[i]
    {
      assert Cong(z[i], Twice(y[i]), P);
      TwiceProduct(z[i], y[i], c, a);
    }
  }

  lemma TwiceProduct(z: Felt, y: Felt, c: Felt, a: Felt)
    requires Cong(z, 2 * y, P) && Cong(2 * c, a, P)
    ensures FMul(z, c) == FMul(y, a)
  {
    hide FMul;
    FMulValue(z, c);
    FMulValue(y, a);
    CongMul(z, 2 * y, c, c, P);
    CongMulLeft(y, 2 * c, a, P);
    assert (2 * y) * c == y * (2 * c);
  }

  lemma ScaleParts(z: seq<Felt>, m: nat, c: Felt)
    ensures Scale(z + Zeros(m), c) == Scale(z, c) + Zeros(m)
  {
    hide FMul;
    FMulValue(0, c);
  }

  // ----- the extension

  ghost function Repeated(x: seq<Felt>, blowup: nat): (r: seq<Felt>)
    ensures |r| == Times(|x|, blowup)
    ensures forall k | 0 <= k < |r| :: |x| > 0 && r[k] == x[k % |x|]
  {
    seq(Times(|x|, blowup), k requires 0 <= k < Times(|x|, blowup) => SomeSample(|x|, blowup); x[k % |x|])
  }

  lemma SomeSample(n: nat, blowup: nat)
    ensures Times(n, blowup) > 0 ==> n > 0
  {}

  lemma RepeatedTwice(x: seq<Felt>, b: nat)
    requires |x| > 0
    ensures Repeated(x, 2 * b) == Repeated(x, b) + Repeated(x, b)
  {
    var n, m := |x|, Times(|x|, b);
    assert Times(n, 2 * b) == 2 * m by { assert n * (2 * b) == 2 * (n * b); }
    forall k | 0 <= k < m
      ensures (k + m) % n == k % n
    {
      AddPeriods(k, b, n);
    }
    forall k | 0 <= k < 2 * m
      ensures Repeated(x, 2 * b)[k] == (Repeated(x, b) + Repeated(x, b))[k]
    {
      if k >= m { assert (k - m + m) % n == (k - m) % n; }
    }
  }

  lemma AddPeriods(k: nat, b: nat, n: nat)
    requires n > 0
    ensures (k + Times(n, b)) % n == k % n
  {
    CongIntro(k + n * b, k, b, n);
  }

  lemma {:induction false} InttOfRepeated(x: seq<Felt>, b: nat)
    requires Extendable(|x|, b) && PowerOfTwo(b)
    ensures |Repeated(x, b)| >= |x| && Intt(Repeated(x, b)) == Intt(x) + Zeros(Times(|x|, b) - |x|)
    decreases b
  {
    hide PowerOfTwo, Intt, Repeated, Times;
    MoreThan(|x|, b);
    if b == 1 {
      OnceRepeated(x);
      assert Intt(x) + Zeros(0) == Intt(x);
    } else {
      var h := b / 2;
      HalfExtendable(|x|, b);
      MoreThan(|x|, h);
      InttOfRepeated(x, h);
      RepeatedTwice(x, h);
      InttOfTwice(Repeated(x, h));
      var n, m := |x|, Times(|x|, h);
      assert Zeros(m - n) + Zeros(m) == Zeros(2 * m - n);
    }
  }

  lemma OnceRepeated(x: seq<Felt>)
    requires |x| > 0
    ensures Times(|x|, 1) == |x| && Repeated(x, 1) == x
  {}

  lemma HalfExtendable(n: nat, b: nat)
    requires Extendable(n, b) && PowerOfTwo(b) && b > 1
    ensures b == 2 * (b / 2) && PowerOfTwo(b / 2) && Extendable(n, b / 2)
    ensures Times(n, b) == 2 * Times(n, b / 2) && Times(n, b / 2) > 0
  {
    hide PowerOfTwo;
    var h := b / 2;
    PowerHalves(b);
    assert n * (2 * h) == 2 * (n * h);
    PowerHalves(Times(n, b));
  }

  lemma PowerHalves(n: nat)
    requires PowerOfTwo(n)
    ensures n > 0 && (n > 1 ==> n % 2 == 0 && PowerOfTwo(n / 2))
  {}

  lemma {:induction false} CofactorIsPower(n: nat, b: nat)
    requires PowerOfTwo(n) && b > 0 && PowerOfTwo(Times(n, b))
    ensures PowerOfTwo(b)
    decreases n
  {
    if n == 1 {
      assert Times(1, b) == b;
    } else {
      assert n * b == 2 * ((n / 2) * b);
      CofactorIsPower(n / 2, b);
    }
  }

  /** The extension is the input, repeated blowup times, for all evaluations and every accepted blow-up. */
  lemma LdeRepeats(x: seq<Felt>, blowup: nat)
    requires Extendable(|x|, blowup)
    ensures Lde(x, blowup) == Repeated(x, blowup)
  {
    hide PowerOfTwo, Intt, ForwardNtt, Repeated;
    CofactorIsPower(|x|, blowup);
    InttOfRepeated(x, blowup);
    ForwardUndoesIntt(Repeated(x, blowup));
  }

  // ----- against what an extension is

  /** Entry k of an extension would be the value at w^k of the polynomial interpolated from x. */
  ghost predicate Extends(x: seq<Felt>, y: seq<Felt>)
    requires Length(|x|) && |y| > 0
  {
    hide InverseDft, Root, PowerOfTwo;
    forall k | 0 <= k < |y| :: Cong(y[k], Eval(InverseDft(x), Pow(Root(|y|), k)), P)
  }

  /** The coefficients, blowup apart. */
  ghost function Spread(f: seq<Felt>, b: nat): (r: seq<Felt>)
    requires b > 0
    ensures |r| == Times(|f|, b)
    ensures forall j | 0 <= j < |r| :: r[j] == SpreadAt(f, b, j)
  {
    hide SpreadAt;
    seq(Times(|f|, b), j requires 0 <= j => SpreadAt(f, b, j))
  }

  ghost function SpreadAt(f: seq<Felt>, b: nat, j: nat): Felt
    requires b > 0
  {
    if j % b == 0 && j / b < |f| then f[j / b] else 0
  }

  lemma {:induction false} EvalSpread(f: seq<Felt>, b: nat, z: int)
    requires b > 0
    ensures Eval(Spread(f, b), z) == Eval(f, Pow(z, b))
  {
    hide Pow, Spread;
    if f == [] {
      assert Times(0, b) == 0;
      assert Spread(f, b) == [];
    } else {
      var rest := Spread(f[1..], b);
      var first := [f[0]] + Zeros(b - 1);
      SpreadFirst(f, b);
      EvalConcat(first, rest, z);
      FirstOf(f[0], b, z);
      EvalSpread(f[1..], b, z);
    }
  }

  lemma FirstOf(v: Felt, b: nat, z: int)
    requires b > 0
    ensures Eval([v] + Zeros(b - 1), z) == v
  {
    var s := [v] + Zeros(b - 1);
    assert s[1..] == Zeros(b - 1);
    EvalZeros(s[1..], z);
  }

  lemma SpreadFirst(f: seq<Felt>, b: nat)
    requires b > 0 && f != []
    ensures Spread(f, b) == ([f[0]] + Zeros(b - 1)) + Spread(f[1..], b)
  {
    hide Spread, SpreadAt;
    var r, rest := Spread(f, b), Spread(f[1..], b);
    assert Times(|f|, b) == b + Times(|f| - 1, b) by { assert |f| * b == b + (|f| - 1) * b; }
    forall j | 0 <= j < |r|
      ensures r[j] == (([f[0]] + Zeros(b - 1)) + rest)[j]
    {
      if j < b { SpreadHead(f, b, j); } else { SpreadTail(f, b, j - b); }
    }
  }

  lemma SpreadHead(f: seq<Felt>, b: nat, j: nat)
    requires f != [] && j < b
    ensures SpreadAt(f, b, j) == if j == 0 then f[0] else 0
  {
    DivModUnique(j, 0, j, b);
  }

  lemma SpreadTail(f: seq<Felt>, b: nat, j: nat)
    requires f != [] && b > 0
    ensures SpreadAt(f, b, j + b) == SpreadAt(f[1..], b, j)
  {
    var q, r := j / b, j % b;
    assert j == q * b + r;
    assert (q + 1) * b == q * b + b;
    DivModUnique(j + b, q + 1, r, b);
  }

  /** The values of the spread coefficients repeat. */
  lemma SpreadRepeats(x: seq<Felt>, b: nat)
    requires Extendable(|x|, b)
    ensures Dft(Spread(InverseDft(x), b), Root(Times(|x|, b))) == Repeated(x, b)
  {
    hide PowerOfTwo, Root, InverseDft, Pow, Eval, Cong, Spread, Times, Dft, Repeated;
    var n, m := |x|, Times(|x|, b);
    MoreThan(n, b);
    var f, w := InverseDft(x), Root(m);
    CofactorIsPower(n, b);
    SplitRoot(n, b);
    InverseDftRoundTrips(x);
    forall k | 0 <= k < m
      ensures Dft(Spread(f, b), w)[k] == Repeated(x, b)[k]
    {
      RootAt(n, b, k);
      SpreadValue(f, b, w, k, Root(n));
    }
  }

  lemma SplitRoot(n: nat, b: nat)
    requires Extendable(n, b) && PowerOfTwo(b)
    ensures Cong(Root(n), Pow(Root(Times(n, b)), b), P)
  {
    hide PowerOfTwo, Root, Pow, Cong;
    SubRoot(Times(n, b), n, b);
  }

  /** (w^k)^b is the root of the smaller domain to the power k, which repeats every n. */
  lemma RootAt(n: nat, b: nat, k: nat)
    requires Extendable(n, b) && PowerOfTwo(b)
    ensures Cong(Pow(Pow(Root(Times(n, b)), k), b), Pow(Root(n), k % n), P)
  {
    hide PowerOfTwo, Root, Pow, Cong, IsRoot;
    var w, r := Root(Times(n, b)), Root(n);
    SplitRoot(n, b);
    PowMul(w, k, b);
    PowMul(w, b, k);
    assert k * b == b * k;
    PowCong(r, Pow(w, b), k, P);
    RootIsRoot(n);
    RootPeriod(r, n);
    PeriodicPower(r, n, k);
    Around(Pow(Pow(w, k), b), Pow(r, k), Pow(r, k % n));
  }

  lemma Around(a: int, b: int, c: int)
    requires Cong(b, a, P) && Cong(b, c, P)
    ensures Cong(a, c, P)
  {}

  lemma PeriodicPower(r: int, n: nat, k: nat)
    requires n > 0 && Cong(Pow(r, n), 1, P)
    ensures Cong(Pow(r, k), Pow(r, k % n), P)
  {
    hide Pow, Cong;
    var q := k / n;
    PowPeriod(r, n, q, P);
    assert k == n * q + k % n;
    PowAdd(r, n * q, k % n);
    CongMul(Pow(r, n * q), 1, Pow(r, k % n), Pow(r, k % n), P);
  }

  lemma SpreadValue(f: seq<Felt>, b: nat, w: int, k: nat, r: int)
    requires b > 0 && k < Times(|f|, b) && |f| > 0 && Cong(Pow(Pow(w, k), b), Pow(r, k % |f|), P)
    ensures Dft(Spread(f, b), w)[k] == Dft(f, r)[k % |f|]
  {
    hide Pow, Eval, Spread;
    EvalSpread(f, b, Pow(w, k));
    EvalAt(f, Pow(Pow(w, k), b), Pow(r, k % |f|));
  }

  lemma PaddedValue(f: seq<Felt>, zeros: nat, z: int)
    ensures Eval(f + Zeros(zeros), z) == Eval(f, z)
  {
    hide Pow;
    EvalConcat(f, Zeros(zeros), z);
    EvalZeros(Zeros(zeros), z);
  }

  /** An extension that repeats comes from a polynomial that is its own spread. */
  lemma ExtensionIsSpread(x: seq<Felt>, b: nat)
    requires Extendable(|x|, b) && Extends(x, Repeated(x, b))
    ensures |InverseDft(x)| == |x| <= Times(|x|, b)
    ensures InverseDft(x) + Zeros(Times(|x|, b) - |x|) == Spread(InverseDft(x), b)
  {
    hide PowerOfTwo, Root, Pow, Eval, Cong, Spread, Times, Dft, Repeated;
    var m := Times(|x|, b);
    MoreThan(|x|, b);
    var f := InverseDft(x);
    var d, w := f + Zeros(m - |x|), Root(m);
    forall k | 0 <= k < m
      ensures Dft(d, w)[k] == Repeated(x, b)[k]
    {
      PaddedValue(f, m - |x|, Pow(w, k));
      ValueIs(d, w, k, Repeated(x, b)[k]);
    }
    assert Dft(d, w) == Repeated(x, b);
    SpreadRepeats(x, b);
    InverseDftRoundTrips(d);
    InverseDftRoundTrips(Spread(f, b));
  }

  lemma ValueIs(d: seq<Felt>, w: int, k: nat, v: Felt)
    requires k < |d| && Cong(v, Eval(d, Pow(w, k)), P)
    ensures Dft(d, w)[k] == v
  {
    CongCanonical(v, Eval(d, Pow(w, k)), P);
  }

  lemma {:induction false} SpreadVanishes(f: seq<Felt>, b: nat, zeros: nat, j: nat)
    requires b > 1 && f + Zeros(zeros) == Spread(f, b) && 0 < j < |f|
    ensures f[j] == 0
    decreases j
  {
    hide Spread, Times;
    var s := Spread(f, b);
    assert s[j] == (f + Zeros(zeros))[j] == f[j];
    if j % b == 0 {
      var q := j / b;
      assert 0 < q < j by { Quotient(j, b); }
      SpreadVanishes(f, b, zeros, q);
    }
  }

  lemma Quotient(j: nat, b: nat)
    requires b > 1 && j > 0 && j % b == 0
    ensures 0 < j / b < j
  {
    var q := j / b;
    assert j == q * b && q * b == q + q * (b - 1);
    assert q >= 1 by { assert q <= 0 ==> q * b <= 0; }
    MulAtLeast(q, b - 1);
  }

  ghost predicate Constant(x: seq<Felt>) { forall i | 0 <= i < |x| :: x[i] == x[0] }

  /** A constant polynomial has constant values, and conversely. */
  lemma ConstantValues(v: Felt, n: nat, z: int)
    requires n > 0
    ensures Eval([v] + Zeros(n - 1), z) == v
  {
    FirstOf(v, n, z);
  }

  lemma ConstantInterpolation(x: seq<Felt>)
    requires Length(|x|) && |x| > 0
    ensures Constant(x) <==> InverseDft(x) == [x[0]] + Zeros(|x| - 1)
  {
    hide PowerOfTwo, Root, Dft, InverseDft, Eval, Pow;
    var n, w := |x|, Root(|x|);
    var g := [x[0]] + Zeros(n - 1);
    InverseDftRoundTrips(x);
    InverseDftRoundTrips(g);
    forall k | 0 <= k < n
      ensures Dft(g, w)[k] == x[0]
    {
      ConstantValues(x[0], n, Pow(w, k));
      ConstantAt(g, w, k, x[0]);
    }
    if Constant(x) { assert Dft(g, w) == x; }
  }

  lemma ConstantAt(g: seq<Felt>, w: int, k: nat, v: Felt)
    requires k < |g| && Eval(g, Pow(w, k)) == v
    ensures Dft(g, w)[k] == v
  {
    CongCanonical(v, v, P);
  }

  lemma ConstantExtends(x: seq<Felt>, b: nat)
    requires Extendable(|x|, b) && Constant(x)
    ensures Extends(x, Repeated(x, b))
  {
    hide PowerOfTwo, Root, InverseDft, Eval, Pow, Times, Repeated;
    ConstantInterpolation(x);
    MoreThan(|x|, b);
    var y, w := Repeated(x, b), Root(Times(|x|, b));
    forall k | 0 <= k < |y|
      ensures Cong(y[k], Eval(InverseDft(x), Pow(w, k)), P)
    {
      ConstantValues(x[0], |x|, Pow(w, k));
      assert y[k] == x[k % |x|] == x[0];
    }
  }

  lemma OnceExtends(x: seq<Felt>)
    requires Length(|x|) && |x| > 0
    ensures Extends(x, x)
  {
    hide PowerOfTwo, Root, InverseDft, Eval, Pow;
    InverseDftRoundTrips(x);
    forall k | 0 <= k < |x|
      ensures Cong(x[k], Eval(InverseDft(x), Pow(Root(|x|), k)), P)
    {
      CongMod(Eval(InverseDft(x), Pow(Root(|x|), k)), P);
    }
  }

  lemma SpreadIsConstant(x: seq<Felt>, b: nat)
    requires Extendable(|x|, b) && b > 1 && Extends(x, Repeated(x, b))
    ensures Constant(x)
  {
    hide PowerOfTwo, Root, Extends, Spread, Times, Repeated, Eval, Pow, Dft, InverseDft;
    var n, f := |x|, InverseDft(x);
    ExtensionIsSpread(x, b);
    forall j | 0 < j < n ensures f[j] == 0 { SpreadVanishes(f, b, Times(n, b) - n, j); }
    assert f == [f[0]] + Zeros(n - 1);
    InverseDftRoundTrips(x);
    forall k | 0 <= k < n
      ensures x[k] == f[0]
    {
      ConstantValues(f[0], n, Pow(Root(n), k));
      ConstantAt(f, Root(n), k, f[0]);
    }
  }

  /**
   * generate_lde gives the values of the interpolated polynomial on the larger domain if and only if
   * the blow-up is 1 or the evaluations are all equal.
   */
  lemma LdeExtendsExactly(x: seq<Felt>, blowup: nat)
    requires Extendable(|x|, blowup)
    ensures |Lde(x, blowup)| > 0 && (Extends(x, Lde(x, blowup)) <==> blowup == 1 || Constant(x))
  {
    hide PowerOfTwo, Lde, Extends, Repeated, Times;
    LdeRepeats(x, blowup);
    MoreThan(|x|, blowup);
    if blowup == 1 {
      OnceRepeated(x);
      OnceExtends(x);
    } else if Constant(x) {
      ConstantExtends(x, blowup);
    } else if Extends(x, Repeated(x, blowup)) {
      SpreadIsConstant(x, blowup);
    }
  }
}
