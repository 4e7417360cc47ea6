/**
 * The number-theoretic transforms of solomon-core/src/crypto/poly.rs over Z_q[X]/(X^256 + 1):
 * in place, each stage running its 128 butterflies in a shuffled order.
 */
module MlDsaNtt {
  import opened Congruence
  import opened MlDsaScalar
  import opened ZetaTable

  const PAIRS := 128

  // ----- stages as functions

  /** A stage joins coefficients at distance len; it has nb blocks. */
  predicate StageSize(len: nat, nb: nat)
  {
    || (len == 128 && nb == 1) || (len == 64 && nb == 2) || (len == 32 && nb == 4) || (len == 16 && nb == 8)
    || (len == 8 && nb == 16) || (len == 4 && nb == 32) || (len == 2 && nb == 64) || (len == 1 && nb == 128)
  }

  /** The factor of block b: ZETAS going forward, the negated mirrored entry going back. */
  function Twiddle(inverse: bool, nb: nat, b: nat): Zq
    requires b < nb <= 128
  {
    hide Zeta;
    if inverse then Q - Zeta(2 * nb - 1 - b) else Zeta(nb + b)
  }

  /** Cooley-Tukey forward, Gentleman-Sande back. */
  function Low(inverse: bool, u: Zq, v: Zq, z: Zq): Zq
  {
    hide SAdd, SMul;
    if inverse then SAdd(u, v) else SAdd(u, SMul(v, z))
  }

  function High(inverse: bool, u: Zq, v: Zq, z: Zq): Zq
  {
    hide SSub, SMul;
    if inverse then SMul(SSub(u, v), z) else SSub(u, SMul(v, z))
  }

  /** Row i / len holds i; even rows are joined with the odd row after them. */
  lemma RowLayout(i: nat, len: nat, nb: nat)
    requires StageSize(len, nb) && i < N
    ensures len > 0 && i / len < 2 * nb && (i / len) / 2 < nb
    ensures (i / len) % 2 == 0 ==> i + len < N && (i + len) / len == i / len + 1
    ensures (i / len) % 2 == 1 ==> i >= len && (i - len) / len == i / len - 1
  {}

  function StageAt(inverse: bool, p: seq<Zq>, len: nat, nb: nat, i: nat): Zq
    requires StageSize(len, nb) && |p| == N && i < N
  {
    hide Low, High, Twiddle;
    RowLayout(i, len, nb);
    var row := i / len;
    var z := Twiddle(inverse, nb, row / 2);
    if row % 2 == 0 then Low(inverse, p[i], p[i + len], z) else High(inverse, p[i - len], p[i], z)
  }

  function Stage(inverse: bool, p: seq<Zq>, len: nat, nb: nat): (r: seq<Zq>)
    requires StageSize(len, nb) && |p| == N
    ensures |r| == N && forall i | 0 <= i < N :: r[i] == StageAt(inverse, p, len, nb, i)
  {
    hide StageAt;
    seq(N, i requires 0 <= i < N => StageAt(inverse, p, len, nb, i))
  }

  // ----- the position of each butterfly

  /** The lower position of butterfly idx: block * len * 2 + offset. */
  function Position(idx: nat, len: nat): nat
    requires len > 0
  {
    (idx / len) * len * 2 + idx % len
  }

  /** The butterfly that touches position i. */
  ghost function PairOf(i: nat, len: nat): nat
    requires len > 0
  {
    ((i / len) / 2) * len + i % len
  }

  lemma PositionLayout(idx: nat, len: nat, nb: nat)
    requires StageSize(len, nb) && idx < PAIRS
    ensures len > 0 && Position(idx, len) + len < N && idx / len < nb
    ensures Position(idx, len) / len == 2 * (idx / len) && (Position(idx, len) + len) / len == 2 * (idx / len) + 1
    ensures PairOf(Position(idx, len), len) == idx && PairOf(Position(idx, len) + len, len) == idx
  {
    hide StageSize, Position, PairOf;
    StageProduct(len, nb);
    var b, o := idx / len, idx % len;
    assert idx == b * len + o;
    RowBelow(b, o, nb, len);
    RowBelow2(b, o, nb, len);
    PositionRows(idx, b, o, len);
  }

  lemma PositionRows(idx: nat, b: nat, o: nat, len: nat)
    requires o < len && idx == b * len + o
    ensures idx / len == b && Position(idx, len) == b * len * 2 + o
    ensures Position(idx, len) / len == 2 * b && (Position(idx, len) + len) / len == 2 * b + 1
    ensures PairOf(Position(idx, len), len) == idx && PairOf(Position(idx, len) + len, len) == idx
  {
    DivModUnique(idx, b, o, len);
    var lower := b * len * 2 + o;
    EvenRow(b, o, len);
    DivModUnique(lower, 2 * b, o, len);
    DivModUnique(lower + len, 2 * b + 1, o, len);
  }

  lemma EvenRow(b: nat, o: nat, len: nat)
    ensures b * len * 2 + o == (2 * b) * len + o
    ensures b * len * 2 + o + len == (2 * b + 1) * len + o
  {}

  lemma StageProduct(len: nat, nb: nat)
    requires StageSize(len, nb)
    ensures len > 0 && nb > 0 && nb * len == PAIRS
  {}

  lemma RowBelow(b: nat, o: nat, nb: nat, len: nat)
    requires b * len + o < nb * len
    ensures b < nb
  {
    assert b >= nb ==> b * len >= nb * len;
  }

  lemma RowBelow2(b: nat, o: nat, nb: nat, len: nat)
    requires b < nb && o < len && nb * len == PAIRS
    ensures b * len * 2 + o + len < N
  {
    NextRow(b, nb, len);
  }

  lemma PairLayout(i: nat, len: nat, nb: nat)
    requires StageSize(len, nb) && i < N
    ensures len > 0 && PairOf(i, len) < PAIRS
    ensures i == Position(PairOf(i, len), len) || i == Position(PairOf(i, len), len) + len
  {
    hide StageSize, Position, PairOf;
    StageProduct(len, nb);
    var q, o := QuotientAndRest(i, len);
    PairBelow(q / 2, o, q, len, nb);
    PairIndex(i, q, o, len);
    PairRows(i, q, q / 2, o, len);
  }

  lemma QuotientAndRest(i: nat, len: nat) returns (q: nat, o: nat)
    requires len > 0
    ensures i == q * len + o && o < len
  {
    q, o := i / len, i % len;
  }

  /** The butterfly of row q touches that row. */
  lemma PairRows(i: nat, q: nat, b: nat, o: nat, len: nat)
    requires o < len && i == q * len + o && b == q / 2
    ensures i == Position(b * len + o, len) || i == Position(b * len + o, len) + len
  {
    hide Position, PairOf;
    PositionRows(b * len + o, b, o, len);
    HalfRows(q, b, len);
  }

  lemma PairIndex(i: nat, q: nat, o: nat, len: nat)
    requires o < len && i == q * len + o
    ensures PairOf(i, len) == (q / 2) * len + o
  {
    DivModUnique(i, q, o, len);
  }

  lemma HalfRows(q: nat, b: nat, len: nat)
    requires b == q / 2
    ensures q * len == b * len * 2 || q * len == b * len * 2 + len
  {
    EvenRow(b, 0, len);
  }

  lemma PairBelow(b: nat, o: nat, q: nat, len: nat, nb: nat)
    requires b == q / 2 && o < len && nb * len == PAIRS && q * len + o < N
    ensures b * len + o < PAIRS
  {
    MulAssoc(2, nb, len);
    RowBelow(q, o, 2 * nb, len);
    NextRow(b, nb, len);
  }

  lemma NextRow(b: nat, nb: nat, len: nat)
    requires b < nb
    ensures b * len + len <= nb * len
  {
    assert (b + 1) * len <= nb * len;
    assert (b + 1) * len == b * len + len;
  }

  // ----- the shuffled order

  /** Every butterfly index occurs exactly once. */
  ghost predicate IsOrder(order: seq<nat>)
  {
    && |order| == PAIRS
    && (forall n | 0 <= n < PAIRS :: order[n] < PAIRS)
    && (forall m, n | 0 <= m < n < PAIRS :: order[m] != order[n])
    && (forall v | 0 <= v < PAIRS :: v in order)
  }

  lemma SwapKeepsOrder(order: seq<nat>, i: nat, j: nat)
    requires IsOrder(order) && i < PAIRS && j < PAIRS
    ensures IsOrder(order[i := order[j]][j := order[i]])
  {
    var o := order[i := order[j]][j := order[i]];
    forall v | 0 <= v < PAIRS
      ensures v in o
    {
      assert v in order;
      var n: nat :| n < PAIRS && order[n] == v;
      var m := if n == i then j else if n == j then i else n;
      assert o[m] == v;
    }
  }

  const LCG_MULTIPLIER := 6_364_136_223_846_793_005
  const LCG_INCREMENT := 1_442_695_040_888_963_407
  const TWO_64 := 0x1_0000_0000_0000_0000

  /** One step of the generator: the new state; its upper half is the draw. */
  function LcgStep(state: nat): (r: nat)
    ensures r < TWO_64
  {
    (state * LCG_MULTIPLIER + LCG_INCREMENT) % TWO_64
  }

  /** draw * (i + 1) >> 32 lies in 0..i. */
  lemma ScaledDraw(draw: nat, i: nat)
    requires draw < RADIX
    ensures 0 <= (draw * (i + 1)) / RADIX <= i
  {
    assert draw * (i + 1) <= (RADIX - 1) * (i + 1) < RADIX * (i + 1);
    var d := draw * (i + 1);
    assert d / RADIX >= i + 1 ==> d >= (i + 1) * RADIX;
  }

  /** Fisher-Yates from the identity, whatever the generator draws. */
  method Shuffle(seed: nat) returns (order: seq<nat>, state: nat)
    ensures IsOrder(order)
  {
    hide LcgStep;
    state := seed;
    order := [];
    for i := 0 to PAIRS
      invariant |order| == i && forall n | 0 <= n < i :: order[n] == n
    {
      order := order + [i];
    }
    assert IsOrder(order) by {
      forall v | 0 <= v < PAIRS ensures v in order { assert order[v] == v; }
    }
    hide IsOrder;
    IsOrderLength(order);
    var i := PAIRS - 1;
    while i >= 1
      invariant 0 <= i < PAIRS && IsOrder(order) && |order| == PAIRS
    {
      state := LcgStep(state);
      var draw := state / RADIX;
      ScaledDraw(draw, i);
      var j := (draw * (i + 1)) / RADIX;
      SwapKeepsOrder(order, i, j);
      order := order[i := order[j]][j := order[i]];
      i := i - 1;
    }
  }

  lemma IsOrderLength(order: seq<nat>)
    requires IsOrder(order)
    ensures |order| == PAIRS
  {}

  // ----- a stage in place, butterflies in any order

  /** The array once the butterflies in done have run. */
  ghost predicate StageProgress(inverse: bool, x: seq<Zq>, a: seq<Zq>, len: nat, nb: nat, done: set<nat>)
    requires StageSize(len, nb) && |x| == |a| == N
  {
    forall i | 0 <= i < N :: a[i] == if PairOf(i, len) in done then StageAt(inverse, x, len, nb, i) else x[i]
  }

  lemma ButterflyRuns(inverse: bool, x: seq<Zq>, a: seq<Zq>, len: nat, nb: nat, done: set<nat>, idx: nat, b: seq<Zq>)
    requires StageSize(len, nb) && |x| == |a| == N && idx < PAIRS && idx !in done
    requires StageProgress(inverse, x, a, len, nb, done)
    requires var j := Position(idx, len); var z := Twiddle(inverse, nb, idx / len);
             j + len < N && idx / len < nb &&
             b == a[j := Low(inverse, a[j], a[j + len], z)][j + len := High(inverse, a[j], a[j + len], z)]
    ensures StageProgress(inverse, x, b, len, nb, done + {idx})
  {
    hide Low, High, Twiddle, Position, PairOf, StageAt, StageSize;
    PositionLayout(idx, len, nb);
    var j := Position(idx, len);
    assert a[j] == x[j] && a[j + len] == x[j + len];
    PairWrites(inverse, x, len, nb, idx, j);
    forall i | 0 <= i < N
      ensures b[i] == if PairOf(i, len) in done + {idx} then StageAt(inverse, x, len, nb, i) else x[i]
    {
      if i != j && i != j + len { PairLayout(i, len, nb); }
    }
  }

  /** The two values butterfly idx writes. */
  lemma PairWrites(inverse: bool, x: seq<Zq>, len: nat, nb: nat, idx: nat, j: nat)
    requires StageSize(len, nb) && |x| == N && idx < PAIRS && len > 0 && j == Position(idx, len)
    ensures j + len < N && idx / len < nb <= 128
    ensures var z := Twiddle(inverse, nb, idx / len);
            && StageAt(inverse, x, len, nb, j) == Low(inverse, x[j], x[j + len], z)
            && StageAt(inverse, x, len, nb, j + len) == High(inverse, x[j], x[j + len], z)
  {
    hide Low, High, Twiddle, Position, PairOf;
    PositionLayout(idx, len, nb);
  }

  method RunStage(inverse: bool, a: array<Zq>, len: nat, nb: nat, order: seq<nat>)
    requires StageSize(len, nb) && a.Length == N && IsOrder(order)
    modifies a
    ensures a[..] == Stage(inverse, old(a[..]), len, nb)
  {
    hide Low, High, Twiddle, Position, PairOf, StageAt, Stage, StageProgress, StageSize, IsOrder, Ran;
    ghost var x := a[..];
    ghost var done: set<nat> := {};
    NothingDone(inverse, x, len, nb);
    NothingRan(order);
    for n := 0 to PAIRS
      invariant StageProgress(inverse, x, a[..], len, nb, done) && Ran(done, order, n)
    {
      NextRuns(done, order, n);
      ghost var y := a[..];
      RunButterfly(inverse, a, len, nb, order[n]);
      ButterflyRuns(inverse, x, y, len, nb, done, order[n], a[..]);
      done := done + {order[n]};
    }
    AllRan(done, order);
    AllPairsDone(inverse, x, a[..], len, nb, done);
  }

  /** Butterfly idx of a stage, in place. */
  method RunButterfly(inverse: bool, a: array<Zq>, len: nat, nb: nat, idx: nat)
    requires StageSize(len, nb) && a.Length == N && idx < PAIRS
    modifies a
    ensures len > 0 && idx / len < nb <= 128 && Position(idx, len) + len < N
    ensures var j := Position(idx, len); var z := Twiddle(inverse, nb, idx / len);
            a[..] == old(a[..])[j := Low(inverse, old(a[j]), old(a[j + len]), z)]
                               [j + len := High(inverse, old(a[j]), old(a[j + len]), z)]
  {
    hide Low, High, Twiddle, Position, PairOf, StageSize;
    PositionLayout(idx, len, nb);
    StageFits(len, nb);
    var j := Position(idx, len);
    var z := Twiddle(inverse, nb, idx / len);
    var u, v := a[j], a[j + len];
    a[j] := Low(inverse, u, v, z);
    a[j + len] := High(inverse, u, v, z);
  }

  /** The first n butterflies of the order have run. */
  ghost predicate Ran(done: set<nat>, order: seq<nat>, n: nat)
  {
    n <= |order| && forall v :: v in done <==> v in order[..n]
  }

  lemma NothingRan(order: seq<nat>)
    ensures Ran({}, order, 0)
  {}

  lemma NextRuns(done: set<nat>, order: seq<nat>, n: nat)
    requires IsOrder(order) && n < PAIRS && Ran(done, order, n)
    ensures n < |order| && order[n] < PAIRS && order[n] !in done && Ran(done + {order[n]}, order, n + 1)
  {
    assert order[..n + 1] == order[..n] + [order[n]];
  }

  lemma AllRan(done: set<nat>, order: seq<nat>)
    requires IsOrder(order) && Ran(done, order, PAIRS)
    ensures forall v :: v in done <==> 0 <= v < PAIRS
  {
    assert order[..PAIRS] == order;
  }

  lemma StageFits(len: nat, nb: nat)
    requires StageSize(len, nb)
    ensures 0 < nb <= 128 && 0 < len <= 128
  {}

  lemma NothingDone(inverse: bool, x: seq<Zq>, len: nat, nb: nat)
    requires StageSize(len, nb) && |x| == N
    ensures len > 0 && StageProgress(inverse, x, x, len, nb, {})
  {}

  // ----- the two transforms

  /** The j-th distance: 1, 2, 4, ..., 128, with its number of blocks. */
  function Len(j: nat): nat
  {
    if j == 0 then 1 else if j == 1 then 2 else if j == 2 then 4 else if j == 3 then 8
    else if j == 4 then 16 else if j == 5 then 32 else if j == 6 then 64 else 128
  }

  function Blocks(j: nat): nat
  {
    if j == 0 then 128 else if j == 1 then 64 else if j == 2 then 32 else if j == 3 then 16
    else if j == 4 then 8 else if j == 5 then 4 else if j == 6 then 2 else 1
  }

  /** The first k stages of the forward transform: distances 128, 64, ... */
  function Forward(p: seq<Zq>, k: nat): (r: seq<Zq>)
    requires |p| == N && k <= 8
    ensures |r| == N
  {
    hide Stage;
    if k == 0 then p else Stage(false, Forward(p, k - 1), Len(8 - k), Blocks(8 - k))
  }

  /** The first k stages of the inverse transform: distances 1, 2, ... */
  function Backward(p: seq<Zq>, k: nat): (r: seq<Zq>)
    requires |p| == N && k <= 8
    ensures |r| == N
  {
    hide Stage;
    if k == 0 then p else Stage(true, Backward(p, k - 1), Len(k - 1), Blocks(k - 1))
  }

  /** 256^-1 in Montgomery form. */
  const INV_N_MONT: Zq := 16382

  function ScalePoly(p: seq<Zq>, c: Zq): (r: seq<Zq>)
    ensures |r| == |p| && forall i | 0 <= i < |p| :: r[i] == SMul(p[i], c)
  {
    hide SMul;
    seq(|p|, i requires 0 <= i < |p| => SMul(p[i], c))
  }

  function Ntt(p: seq<Zq>): (r: seq<Zq>)
    requires |p| == N
    ensures |r| == N
  {
    Forward(p, 8)
  }

  function Intt(p: seq<Zq>): (r: seq<Zq>)
    requires |p| == N
    ensures |r| == N
  {
    ScalePoly(Backward(p, 8), INV_N_MONT)
  }

  lemma ForwardStep(p: seq<Zq>, k: nat)
    requires |p| == N && k < 8
    ensures StageSize(Len(7 - k), Blocks(7 - k))
    ensures Forward(p, k + 1) == Stage(false, Forward(p, k), Len(7 - k), Blocks(7 - k))
    ensures k < 7 ==> Len(7 - k) / 2 == Len(6 - k) && 2 * Blocks(7 - k) == Blocks(6 - k)
    ensures k == 7 ==> Len(7 - k) / 2 == 0
  {
    hide Stage;
  }

  lemma BackwardStep(p: seq<Zq>, k: nat)
    requires |p| == N && k < 8
    ensures StageSize(Len(k), Blocks(k))
    ensures Backward(p, k + 1) == Stage(true, Backward(p, k), Len(k), Blocks(k))
    ensures k < 7 ==> 2 * Len(k) == Len(k + 1) < 256 && Blocks(k) / 2 == Blocks(k + 1) && Blocks(k) == 2 * Blocks(k + 1)
    ensures k == 7 ==> 2 * Len(k) == 256
  {
    hide Stage;
  }

  /** ntt: every stage shuffled; the outcome does not depend on the seed. */
  method NttInPlace(a: array<Zq>, seed: nat)
    requires a.Length == N
    modifies a
    ensures a[..] == Ntt(old(a[..]))
  {
    hide Stage, IsOrder, Forward, StageSize;
    ghost var x := a[..];
    var state := seed;
    var len: nat, nb: nat := 128, 1;
    ghost var k: nat := 0;
    assert Forward(x, 0) == x by { FirstStages(x); }
    while len >= 1
      invariant k <= 8 && a[..] == Forward(x, k)
      invariant if k == 8 then len == 0 else len == Len(7 - k) && nb == Blocks(7 - k)
      decreases len
    {
      ForwardStep(x, k);
      var order;
      order, state := Shuffle(state);
      RunStage(false, a, len, nb, order);
      len, nb := len / 2, 2 * nb;
      k := k + 1;
    }
  }

  lemma FirstStages(x: seq<Zq>)
    requires |x| == N
    ensures Forward(x, 0) == x && Backward(x, 0) == x && Len(0) == 1 && Blocks(0) == 128
  {}

  /** The last loop of both inverse transforms: every coefficient times 1/256. */
  method ScaleInPlace(a: array<Zq>)
    requires a.Length == N
    modifies a
    ensures a[..] == ScalePoly(old(a[..]), INV_N_MONT)
  {
    hide SMul;
    ghost var y := a[..];
    for i := 0 to N
      invariant forall j | 0 <= j < N :: a[j] == if j < i then SMul(y[j], INV_N_MONT) else y[j]
    {
      a[i] := SMul(a[i], INV_N_MONT);
    }
    assert a[..] == ScalePoly(y, INV_N_MONT);
  }

  /** intt: stages upwards, then the factor 1/256. */
  method InttInPlace(a: array<Zq>, seed: nat)
    requires a.Length == N
    modifies a
    ensures a[..] == Intt(old(a[..]))
  {
    hide Stage, IsOrder, SMul, ScalePoly, Backward, StageSize;
    ghost var x := a[..];
    var state := seed;
    var len: nat, nb: nat := 1, 128;
    ghost var k: nat := 0;
    assert Backward(x, 0) == x by { FirstStages(x); }
    while len <= 128
      invariant k <= 8 && a[..] == Backward(x, k)
      invariant if k == 8 then len == 256 else len == Len(k) && nb == Blocks(k)
      decreases 256 - len
    {
      BackwardStep(x, k);
      var order;
      order, state := Shuffle(state);
      RunStage(true, a, len, nb, order);
      len, nb := 2 * len, nb / 2;
      k := k + 1;
    }
    ScaleInPlace(a);
  }

  // ----- Algorithms 41 and 42 of FIPS 204: the same stages in order, with a running table index

  /** One stage in order; block after block, m running through the table as in the standard. */
  method StageInOrder(inverse: bool, a: array<Zq>, len: nat, nb: nat, m0: nat) returns (m: nat)
    requires StageSize(len, nb) && a.Length == N && m0 == if inverse then 2 * nb else nb - 1
    modifies a
    ensures a[..] == Stage(inverse, old(a[..]), len, nb)
    ensures m == if inverse then nb else 2 * nb - 1
  {
    hide Low, High, Twiddle, Position, PairOf, StageAt, Stage, StageProgress, StageSize, Zeta;
    ghost var x := a[..];
    StageProduct(len, nb);
    NothingDone(inverse, x, len, nb);
    ghost var done: set<nat> := {};
    m := m0;
    var start := 0;
    ghost var b := 0;
    while start < N
      invariant 0 <= b <= nb && start == 2 * (b * len) && m == if inverse then 2 * nb - b else nb - 1 + b
      invariant StageProgress(inverse, x, a[..], len, nb, done)
      invariant forall v :: v in done <==> 0 <= v < b * len
      decreases nb - b
    {
      StageFits(len, nb);
      BlockBounds(start, b, len, nb);
      m := if inverse then m - 1 else m + 1;
      var z: Zq := if inverse then Q - Zeta(m) else Zeta(m);
      assert z == Twiddle(inverse, nb, b) by { TwiddleEntry(inverse, nb, b, m); }
      for j := start to start + len
        invariant StageProgress(inverse, x, a[..], len, nb, done)
        invariant forall v :: v in done <==> 0 <= v < b * len + (j - start)
      {
        ghost var idx := b * len + (j - start);
        InBlock(idx, b, j - start, len, nb);
        var u, v := a[j], a[j + len];
        ButterflyRuns(inverse, x, a[..], len, nb, done, idx,
                      a[..][j := Low(inverse, u, v, z)][j + len := High(inverse, u, v, z)]);
        a[j] := Low(inverse, u, v, z);
        a[j + len] := High(inverse, u, v, z);
        done := done + {idx};
      }
      NextBlock(b, len);
      start := start + 2 * len;
      b := b + 1;
    }
    LastBlock(b, len, nb);
    AllPairsDone(inverse, x, a[..], len, nb, done);
  }

  lemma BlockBounds(start: int, b: nat, len: nat, nb: nat)
    requires b <= nb && nb * len == PAIRS && start == 2 * (b * len) && start < N
    ensures b < nb && start + 2 * len <= N
  {
    assert b == nb ==> b * len == PAIRS;
    NextRow(b, nb, len);
  }

  lemma TwiddleEntry(inverse: bool, nb: nat, b: nat, m: nat)
    requires b < nb <= 128 && m == if inverse then 2 * nb - 1 - b else nb + b
    ensures Twiddle(inverse, nb, b) == if inverse then Q - Zeta(m) else Zeta(m)
  {}

  lemma InBlock(idx: nat, b: nat, o: nat, len: nat, nb: nat)
    requires o < len && b < nb && nb * len == PAIRS && idx == b * len + o
    ensures idx < PAIRS && idx / len == b && Position(idx, len) == 2 * (b * len) + o
  {
    NextRow(b, nb, len);
    PositionRows(idx, b, o, len);
  }

  lemma NextBlock(b: nat, len: nat)
    ensures (b + 1) * len == b * len + len
  {}

  lemma LastBlock(b: nat, len: nat, nb: nat)
    requires b <= nb && nb * len == PAIRS && 2 * (b * len) >= N && len > 0
    ensures b == nb && b * len == PAIRS
  {
    assert b < nb ==> b * len + len <= nb * len by { if b < nb { NextRow(b, nb, len); } }
  }

  lemma AllPairsDone(inverse: bool, x: seq<Zq>, a: seq<Zq>, len: nat, nb: nat, done: set<nat>)
    requires StageSize(len, nb) && |x| == |a| == N
    requires StageProgress(inverse, x, a, len, nb, done) && forall v :: v in done <==> 0 <= v < PAIRS
    ensures a == Stage(inverse, x, len, nb)
  {
    hide PairOf, StageAt, Stage, Position;
    forall i | 0 <= i < N
      ensures a[i] == Stage(inverse, x, len, nb)[i]
    {
      PairLayout(i, len, nb);
    }
  }

  /** Algorithm 41: the in-order transform gives what the shuffled one gives. */
  method NttInOrder(a: array<Zq>)
    requires a.Length == N
    modifies a
    ensures a[..] == Ntt(old(a[..]))
  {
    hide Stage, Forward, StageSize;
    ghost var x := a[..];
    var m: nat := 0;
    var len: nat := 128;
    ghost var k: nat := 0;
    assert Forward(x, 0) == x by { FirstStages(x); }
    while len >= 1
      invariant k <= 8 && a[..] == Forward(x, k)
      invariant if k == 8 then len == 0 else len == Len(7 - k) && m == Blocks(7 - k) - 1
      decreases len
    {
      ForwardStep(x, k);
      m := StageInOrder(false, a, len, m + 1, m);
      len := len / 2;
      k := k + 1;
    }
  }

  /** Algorithm 42. */
  method InttInOrder(a: array<Zq>)
    requires a.Length == N
    modifies a
    ensures a[..] == Intt(old(a[..]))
  {
    hide Stage, ScalePoly, Backward, StageSize, Len, Blocks;
    ghost var x := a[..];
    var m: nat := 256;
    var len: nat, nb: nat := 1, 128;
    ghost var k: nat := 0;
    FirstStages(x);
    while len < 256
      invariant k <= 8 && a[..] == Backward(x, k)
      invariant if k == 8 then len == 256 else len < 256 && len == Len(k) && nb == Blocks(k) && m == 2 * nb
      decreases 256 - len
    {
      BackwardStep(x, k);
      m := StageInOrder(true, a, len, nb, m);
      len, nb := 2 * len, nb / 2;
      k := k + 1;
    }
    ScaleInPlace(a);
  }
}
