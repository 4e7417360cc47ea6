/**
 * The folding step of solomon-zk/src/fri.rs: evaluations of a polynomial on the n-th roots of
 * unity become evaluations of c[2j] + beta * c[2j+1] on the (n/2)-th roots, down to a constant.
 */
module FriFolding {
  import opened Congruence
  import opened Evaluation
  import opened Goldilocks
  import opened Fourier
  import opened RadixTwo
  import opened FourStep

  /** (f(x) + f(-x))/2 + beta * (f(x) - f(-x))/(2x), as the loop computes it. */
  ghost function FoldedValue(a: Felt, b: Felt, x: Felt, beta: Felt): Felt
  {
    hide FAdd, FSub, FMul, FInv;
    var half := FInv(2);
    FAdd(FMul(FAdd(a, b), half), FMul(beta, FMul(FMul(FSub(a, b), half), FInv(x))))
  }

  ghost function Fold(evals: seq<Felt>, beta: Felt): (r: seq<Felt>)
    requires |evals| > 1
    ensures |r| == |evals| / 2
    ensures forall i | 0 <= i < |evals| / 2 ::
              r[i] == FoldedValue(evals[i], evals[i + |evals| / 2], FPow(Root(|evals|), i), beta)
  {
    hide FoldedValue, Root, FPow;
    seq(|evals| / 2, i requires 0 <= i < |evals| / 2 =>
          FoldedValue(evals[i], evals[i + |evals| / 2], FPow(Root(|evals|), i), beta))
  }

  /** The folded coefficients. */
  ghost function FoldCoeffs(c: seq<Felt>, beta: Felt): (r: seq<Felt>)
    ensures |r| == |c| / 2
    ensures forall j | 0 <= j < |c| / 2 :: r[j] == FAdd(c[2 * j], FMul(beta, c[2 * j + 1]))
  {
    hide FAdd, FMul;
    seq(|c| / 2, j requires 0 <= j < |c| / 2 => FAdd(c[2 * j], FMul(beta, c[2 * j + 1])))
  }

  /** One layer of the folding loop. */
  method FoldLayer(evals: seq<Felt>, beta: Felt) returns (next: seq<Felt>)
    requires |evals| > 1 && Length(|evals|)
    ensures next == Fold(evals, beta)
  {
    hide FAdd, FSub, FMul, FInv, Root, FPow, PowerOfTwo;
    var inv2 := Invert(2);
    var nextLen := |evals| / 2;
    next := [];
    var omega := GetRootOfUnity(|evals|);
    for i := 0 to nextLen
      invariant |next| == i
      invariant forall k | 0 <= k < i ::
                next[k] == FoldedValue(evals[k], evals[k + nextLen], FPow(Root(|evals|), k), beta)
    {
      var fx, fNegX := evals[i], evals[i + nextLen];
      var x := Exp(omega, i);
      DomainPointInvertible(|evals|, i);
      var inv := Invert(x);
      var sum := FAdd(fx, fNegX);
      var diff := FSub(fx, fNegX);
      var halfSum := FMul(sum, inv2);
      var halfDiffOverX := FMul(FMul(diff, inv2), inv);
      next := next + [FAdd(halfSum, FMul(beta, halfDiffOverX))];
    }
  }

  /** Domain points are powers of 7, hence invertible and not zero. */
  lemma DomainPointInvertible(n: nat, i: nat)
    requires Length(n)
    ensures n > 0
    ensures Cong(FPow(Root(n), i) * FInv(FPow(Root(n), i)), 1, P) && FPow(Root(n), i) != 0
  {
    hide FInv, PowerOfTwo;
    LengthNotZero(n);
    var c: nat := (P - 1) / n;
    var x := FPow(Root(n), i);
    PowCong(Root(n), Pow(7, c), i, P);
    PowMul(7, c, i);
    InverseOfSevenPower(x, c * i);
    NonZero(x, FInv(x));
  }

  lemma HalfInverse()
    ensures Cong(2 * FInv(2), 1, P)
  {
    hide FInv;
    assert Pow(2, 1) == 2 * Pow(2, 0);
    InverseOfTwoPower(2, 1);
  }

  /** Folding a butterfly (e + x*o, e - x*o) gives e + beta * o. */
  lemma FoldButterfly(e: Felt, o: Felt, x: Felt, beta: Felt)
    requires Cong(x * FInv(x), 1, P)
    ensures FoldedValue(FAdd(e, FMul(o, x)), FSub(e, FMul(o, x)), x, beta) == FAdd(e, FMul(beta, o))
  {
    hide FAdd, FSub, FMul, FInv, Cong;
    var t := FMul(o, x);
    var a, b, half, inv := FAdd(e, t), FSub(e, t), FInv(2), FInv(x);
    FMulCong(o, x);
    FAddCong(e, t);
    FSubCong(e, t);
    FAddCong(a, b);
    FSubCong(a, b);
    FMulCong(FAdd(a, b), half);
    FMulCong(FSub(a, b), half);
    FMulCong(FMul(FSub(a, b), half), inv);
    HalfInverse();
    RecoverEven(a, b, e, t, FAdd(a, b), half, FMul(FAdd(a, b), half));
    RecoverOdd(a, b, e, t, o, x, FSub(a, b), half, inv, FMul(FSub(a, b), half), FMul(FMul(FSub(a, b), half), inv));
    FeltUnique(FMul(FAdd(a, b), half), e);
    FeltUnique(FMul(FMul(FSub(a, b), half), inv), o);
  }

  lemma FeltUnique(a: Felt, b: Felt)
    requires Cong(a, b, P)
    ensures a == b
  {
    CongCanonical(a, b, P);
    CongCanonical(b, b, P);
  }

  lemma RecoverEven(a: int, b: int, e: int, t: int, sum: int, half: int, r: int)
    requires Cong(a, e + t, P) && Cong(b, e - t, P) && Cong(sum, a + b, P) && Cong(2 * half, 1, P)
             && Cong(r, sum * half, P)
    ensures Cong(r, e, P)
  {
    CongAdd(a, e + t, b, e - t, P);
    CongMul(sum, 2 * e, half, half, P);
    CongMulLeft(e, 2 * half, 1, P);
    assert 2 * e * half == e * (2 * half);
  }

  lemma RecoverOdd(a: int, b: int, e: int, t: int, o: int, x: int, diff: int, half: int, inv: int, h: int, r: int)
    requires Cong(a, e + t, P) && Cong(b, e - t, P) && Cong(t, o * x, P) && Cong(diff, a - b, P)
    requires Cong(2 * half, 1, P) && Cong(x * inv, 1, P) && Cong(h, diff * half, P) && Cong(r, h * inv, P)
    ensures Cong(r, o, P)
  {
    CongSub(a, e + t, b, e - t, P);
    CongMul(diff, 2 * t, half, half, P);
    CongMulLeft(t, 2 * half, 1, P);
    assert 2 * t * half == t * (2 * half);
    assert Cong(h, o * x, P);
    CongMul(h, o * x, inv, inv, P);
    CongMulLeft(o, x * inv, 1, P);
    MulAssoc(o, x, inv);
  }

  /** The transform of folded coefficients is the combination of the two half transforms. */
  lemma FoldedTransform(c: seq<Felt>, beta: Felt, w: int, i: nat)
    requires |c| % 2 == 0 && i < |c| / 2
    ensures Dft(FoldCoeffs(c, beta), w)[i] == FAdd(Dft(FEvens(c), w)[i], FMul(beta, Dft(FOdds(c), w)[i]))
  {
    hide FAdd, FMul, Cong, Eval, Pow;
    var f, e, o := FoldCoeffs(c, beta), FEvens(c), FOdds(c);
    var z := Pow(w, i);
    forall j | 0 <= j < |f|
      ensures Cong(f[j], e[j] + Scaled(beta, o[j]), P)
    {
      CombinedElement(e[j], beta, o[j]);
    }
    EvalLinear(e, o, beta, f, z, P);
    CongMod(Eval(e, z), P);
    CongMod(Eval(o, z), P);
    CongMod(Eval(f, z), P);
    var ev, ov, fv := Dft(e, w)[i], Dft(o, w)[i], Dft(f, w)[i];
    CombinedElement(ev, beta, ov);
    CombinedValue(fv, Eval(f, z), ev, Eval(e, z), ov, Eval(o, z), beta, FAdd(ev, FMul(beta, ov)));
    FeltUnique(fv, FAdd(ev, FMul(beta, ov)));
  }

  ghost function Scaled(a: int, b: int): int { a * b }

  lemma CombinedElement(e: Felt, beta: Felt, o: Felt)
    ensures Cong(FAdd(e, FMul(beta, o)), e + Scaled(beta, o), P)
  {
    hide FAdd, FMul;
    FMulCong(beta, o);
    FAddCong(e, FMul(beta, o));
    CongAdd(e, e, FMul(beta, o), Scaled(beta, o), P);
  }

  lemma CombinedValue(f: int, f': int, e: int, e': int, o: int, o': int, beta: int, r: int)
    requires Cong(f, f', P) && Cong(e, e', P) && Cong(o, o', P) && Cong(f', e' + beta * o', P)
             && Cong(r, e + Scaled(beta, o), P)
    ensures Cong(f, r, P)
  {
    CongMulLeft(beta, o, o', P);
    CongAdd(e, e', beta * o, beta * o', P);
  }

  ghost function Square(w: int): int { w * w }

  /** The squares of the n-th roots are the (n/2)-th roots. */
  lemma HalfRoot(n: nat)
    requires Length(n) && n > 1
    ensures Length(n / 2) && n / 2 > 0 && n % 2 == 0 && Cong(Square(Root(n)), Root(n / 2), P)
  {
    hide Root;
    assert PowerOfTwo(2);
    SubRoot(n, n / 2, 2);
    assert Pow(Root(n), 2) == Root(n) * Pow(Root(n), 1) == Root(n) * Root(n);
  }

  /**
   * Folding is faithful: if the layer holds the evaluations of c on the n-th roots of unity, the
   * next layer holds the evaluations of c[2j] + beta * c[2j+1] on the (n/2)-th roots.
   */
  lemma FoldFaithful(c: seq<Felt>, beta: Felt)
    requires |c| > 1 && Length(|c|)
    ensures Length(|c| / 2) && |c| / 2 > 0
    ensures Fold(Dft(c, Root(|c|)), beta) == Dft(FoldCoeffs(c, beta), Root(|c| / 2))
  {
    hide Root, Dft, FoldCoeffs, FPow, PowerOfTwo, Cong, Fold, IsRoot, Square, FEvens, FOdds, Butterflies;
    var n := |c|;
    HalfRoot(n);
    RootIsRoot(n);
    HalvesBySquare(c, Root(n), Root(n / 2));
    FoldHalves(c, beta, Root(n / 2));
  }

  lemma HalvesBySquare(c: seq<Felt>, w: int, w2: int)
    requires |c| > 1 && Length(|c|) && |c| % 2 == 0 && IsRoot(w, |c|) && Cong(Square(w), w2, P)
    ensures Dft(c, w) == Butterflies(Dft(FEvens(c), w2) + Dft(FOdds(c), w2), w)
  {
    hide Dft, FPow, PowerOfTwo, Cong, IsRoot, FEvens, FOdds, Butterflies;
    DftRootCong(FEvens(c), w * w, w2);
    DftRootCong(FOdds(c), w * w, w2);
    DftDecimation(c, w);
  }

  lemma FoldHalves(c: seq<Felt>, beta: Felt, w2: int)
    requires |c| > 1 && Length(|c|) && |c| % 2 == 0
    requires Dft(c, Root(|c|)) == Butterflies(Dft(FEvens(c), w2) + Dft(FOdds(c), w2), Root(|c|))
    ensures Fold(Dft(c, Root(|c|)), beta) == Dft(FoldCoeffs(c, beta), w2)
  {
    hide Root, Dft, FoldCoeffs, FPow, PowerOfTwo, FEvens, FOdds, FAdd, FMul, Fold, Butterflies;
    var e, o := Dft(FEvens(c), w2), Dft(FOdds(c), w2);
    FoldOfButterflies(e, o, |c| / 2, beta);
    var r := Dft(FoldCoeffs(c, beta), w2);
    forall i | 0 <= i < |c| / 2
      ensures r[i] == FAdd(e[i], FMul(beta, o[i]))
    {
      FoldedTransform(c, beta, w2, i);
    }
  }

  /** Folding one butterfly pass over two halves. */
  lemma FoldOfButterflies(e: seq<Felt>, o: seq<Felt>, h: nat, beta: Felt)
    requires |e| == h && |o| == h && h > 0 && Length(2 * h)
    ensures var f := Fold(Butterflies(e + o, Root(2 * h)), beta);
            |f| == h && forall i | 0 <= i < h :: f[i] == FAdd(e[i], FMul(beta, o[i]))
  {
    hide Root, FPow, PowerOfTwo, FAdd, FMul, FSub, FoldedValue, FInv, ButterflyAt, Cong;
    var w := Root(2 * h);
    forall i | 0 <= i < h
      ensures Fold(Butterflies(e + o, w), beta)[i] == FAdd(e[i], FMul(beta, o[i]))
    {
      ButterflyPair(e + o, w, i);
      DomainPointInvertible(2 * h, i);
      FoldButterfly(e[i], o[i], FPow(w, i), beta);
    }
  }

  // ----- all rounds

  /** The layer left after folding with each challenge in turn. */
  ghost function FoldRounds(evals: seq<Felt>, betas: seq<Felt>): seq<Felt>
    requires Length(|evals|)
    decreases |betas|
  {
    hide Fold, PowerOfTwo;
    if betas == [] || |evals| <= 1 then evals
    else
      HalfRoot(|evals|);
      FoldRounds(Fold(evals, betas[0]), betas[1..])
  }

  ghost function FoldCoeffRounds(c: seq<Felt>, betas: seq<Felt>): seq<Felt>
    decreases |betas|
  {
    hide FoldCoeffs;
    if betas == [] || |c| <= 1 then c else FoldCoeffRounds(FoldCoeffs(c, betas[0]), betas[1..])
  }

  /** After any number of rounds the layer holds the evaluations of the folded coefficients. */
  lemma {:induction false} RoundsFaithful(c: seq<Felt>, betas: seq<Felt>)
    requires Length(|c|) && |c| > 0
    ensures var d := FoldCoeffRounds(c, betas);
            && |d| > 0 && Length(|d|)
            && FoldRounds(Dft(c, Root(|c|)), betas) == Dft(d, Root(|d|))
    decreases |betas|
  {
    hide Fold, FoldCoeffs, Dft, Root, PowerOfTwo;
    if betas != [] && |c| > 1 {
      FoldFaithful(c, betas[0]);
      RoundsFaithful(FoldCoeffs(c, betas[0]), betas[1..]);
    }
  }

  lemma {:induction false} RoundsEnd(c: seq<Felt>, betas: seq<Felt>)
    requires Length(|c|) && |betas| >= Log2(|c|)
    ensures |FoldCoeffRounds(c, betas)| == 1
    decreases |betas|
  {
    hide FoldCoeffs;
    if |c| > 1 { RoundsEnd(FoldCoeffs(c, betas[0]), betas[1..]); }
  }

  /** Down to the final constant: it is the one coefficient left. */
  lemma FinalConstant(c: seq<Felt>, betas: seq<Felt>)
    requires Length(|c|) && |c| > 0 && |betas| == Log2(|c|)
    ensures |FoldCoeffRounds(c, betas)| == 1 && FoldRounds(Dft(c, Root(|c|)), betas) == FoldCoeffRounds(c, betas)
  {
    hide Dft, Root, PowerOfTwo, FoldRounds, FoldCoeffRounds;
    RoundsFaithful(c, betas);
    RoundsEnd(c, betas);
    var d := FoldCoeffRounds(c, betas);
    DftOfOne(d, Root(|d|));
  }
}
