/**
 * What the proof protocol of solomon-zk hashes, byte by byte: leaves, inner nodes and every state of
 * the transcript, without the functions that assemble them.
 */
module StarkTranscript {
  import opened Basics
  import opened Congruence
  import opened Numerals
  import opened Goldilocks
  import opened Merkle
  import opened Transcript
  import opened FriFolding
  import opened Stark
  import opened StarkCompleteness

  /** x is a followed by b. */
  ghost predicate Followed(x: Bytes, a: Bytes, b: Bytes)
  {
    |x| == |a| + |b| && x[..|a|] == a && x[|a|..] == b
  }

  lemma FollowedIs(x: Bytes, a: Bytes, b: Bytes)
    requires Followed(x, a, b)
    ensures x == a + b
  {
    assert x == x[..|a|] + x[|a|..];
  }

  // ----- words

  lemma {:induction false} NumberBound(b: Bytes)
    ensures 0 <= Number(b, 256) < Pow(256, |b|)
  {
    if b != [] { NumberBound(b[1..]); }
  }

  lemma Number4(a: int, b: int, c: int, d: int)
    ensures Number([a, b, c, d], 256) == Word(a, b, c, d)
  {
    assert [a, b, c, d][1..] == [b, c, d] && [b, c, d][1..] == [c, d] && [c, d][1..] == [d] && [d][1..] == [];
    assert Number([d], 256) == d;
    assert Number([c, d], 256) == c + 256 * d;
  }

  /** Eight bytes read as a little-endian word. */
  lemma WordNumber(b: Bytes)
    requires |b| == 8
    ensures FromLe64(b) == Number(b, 256)
  {
    hide Number, Word;
    var lo, hi := [b[0], b[1], b[2], b[3]], [b[4], b[5], b[6], b[7]];
    assert b == lo + hi;
    NumberConcat(lo, hi, 256);
    assert Pow(256, 4) == 0x1_0000_0000;
    Number4(b[0], b[1], b[2], b[3]);
    Number4(b[4], b[5], b[6], b[7]);
  }

  /** The element drawn from a digest: its first eight bytes modulo p. */
  ghost function Drawn(d: Bytes): int
    requires |d| >= 8
  {
    Number(d[..8], 256) % 0xFFFF_FFFF_0000_0001
  }

  lemma ChallengeMeans(h: HashFunction, state: Bytes)
    ensures Challenge(h, state) == Drawn(h(state))
  {
    hide FromLe64;
    WordNumber(h(state)[..8]);
  }

  // ----- leaves and nodes

  /** A row is hashed as one number with 64-bit digits, in eight bytes each. */
  lemma {:induction false} RowNumber(row: Words)
    ensures |RowBytes(row)| == 8 * |row| && Number(RowBytes(row), 256) == Number(row, 0x1_0000_0000_0000_0000)
  {
    hide Le64;
    if row != [] {
      RowNumber(row[1..]);
      Le64RoundTrip(row[0]);
      WordNumber(Le64(row[0]));
      NumberConcat(Le64(row[0]), RowBytes(row[1..]), 256);
      EightBytes();
    }
  }

  lemma EightBytes()
    ensures Pow(256, 8) == 0x1_0000_0000_0000_0000
  {
    PowAdd(256, 4, 4);
    assert Pow(256, 4) == 0x1_0000_0000;
  }

  lemma LeafMeans(h: HashFunction, row: Words, b: Bytes)
    requires |b| == 8 * |row| && Number(b, 256) == Number(row, 0x1_0000_0000_0000_0000)
    ensures Leaf(h, row) == h(b)
  {
    hide RowBytes, Number;
    RowNumber(row);
    NumberInjective(b, RowBytes(row), 256);
  }

  /** An inner node hashes its left child, then its right child. */
  lemma ParentMeans(h: HashFunction, left: Digest, right: Digest, x: Bytes)
    requires |x| == 64 && x[..32] == left && x[32..] == right
    ensures Parent(h, left, right) == h(x)
  {
    assert x == x[..32] + x[32..];
  }

  /** The root of a tree joins the roots of its two halves, the first half on the left. */
  lemma {:induction false} RootOfHalves(h: HashFunction, a: seq<Digest>, b: seq<Digest>)
    requires PowerOfTwo(|a|) && |b| == |a|
    ensures PowerOfTwo(|a + b|) && TreeRoot(h, a + b) == Parent(h, TreeRoot(h, a), TreeRoot(h, b))
    decreases |a|
  {
    hide Parent, TreeRoot;
    HalfOfDouble(|a|);
    assert |a + b| == 2 * |a|;
    TreeStep(h, a + b);
    if |a| == 1 {
      TreeTop(h, a);
      TreeTop(h, b);
      TreeTop(h, Parents(h, a + b));
    } else {
      TreeStep(h, a);
      TreeStep(h, b);
      var p, q := Parents(h, a), Parents(h, b);
      RootOfHalves(h, p, q);
      ParentsOfHalves(h, a, b);
    }
  }

  lemma ParentsOfHalves(h: HashFunction, a: seq<Digest>, b: seq<Digest>)
    requires |a| % 2 == 0
    ensures Parents(h, a + b) == Parents(h, a) + Parents(h, b)
  {
    hide Parent;
    var m := |a| / 2;
    forall i | 0 <= i < |a + b| / 2
      ensures Parents(h, a + b)[i] == (Parents(h, a) + Parents(h, b))[i]
    {
      if i >= m { var j := i - m; assert 2 * i == |a| + 2 * j; }
    }
  }

  // ----- the opening of the transcript

  /** Each state is the digest of the one before. */
  ghost predicate Chain(h: HashFunction, states: seq<Bytes>)
  {
    forall k | 1 <= k < |states| :: states[k] == h(states[k - 1])
  }

  lemma {:induction false} ChainState(h: HashFunction, states: seq<Bytes>, k: nat)
    requires Chain(h, states) && k < |states|
    ensures StateAfter(h, states[0], k) == states[k]
    decreases k
  {
    if k > 0 {
      ChainState(h, states, k - 1);
      StateStep(h, states[0], k - 1);
    }
  }

  lemma {:induction false} ChainDraw(h: HashFunction, states: seq<Bytes>, n: nat, k: nat)
    requires Chain(h, states) && n < |states| && k < n
    ensures |states[k + 1]| == 32 && Challenges(h, states[0], n)[k] == Drawn(states[k + 1])
    decreases k
  {
    hide Challenge, Drawn;
    assert states[1] == h(states[0]);
    ChallengeMeans(h, states[0]);
    if k > 0 {
      var next := states[1..];
      assert Chain(h, next);
      ChainDraw(h, next, n - 1, k - 1);
    }
  }

  lemma FirstParts(pk: Bytes, msg: Bytes, root: Digest, x: Bytes)
    requires var n := |pk| + |msg|; |x| == n + 32 && x[..|pk|] == pk && x[|pk|..n] == msg && x[n..] == root
    ensures x == FirstState(pk, msg, root)
  {
    var n := |pk| + |msg|;
    assert x == x[..|pk|] + x[|pk|..n] + x[n..];
  }

  /**
   * Both sides start from the public key, the message and the trace root, hash five times, and take
   * the alphas from the first four digests, zeta from the fifth, and go on from there.
   */
  lemma OpeningMeans(h: HashFunction, pk: Bytes, msg: Bytes, root: Digest, states: seq<Bytes>)
    requires |states| == 6 && Chain(h, states)
    requires var x := states[0]; var n := |pk| + |msg|;
             |x| == n + 32 && x[..|pk|] == pk && x[|pk|..n] == msg && x[n..] == root
    ensures forall k | 1 <= k <= 4 :: |states[k]| == 32 && Alphas(h, pk, msg, root)[k - 1] == Drawn(states[k])
    ensures |states[5]| == 32 && Zeta(h, pk, msg, root) == Drawn(states[5]) && FriState(h, pk, msg, root) == states[5]
  {
    hide Drawn, Challenge, Challenges, StateAfter, FirstState;
    var x := states[0];
    FirstParts(pk, msg, root, x);
    forall k | 1 <= k <= 4
      ensures |states[k]| == 32 && Alphas(h, pk, msg, root)[k - 1] == Drawn(states[k])
    {
      ChainDraw(h, states, 4, k - 1);
    }
    ChainState(h, states, 4);
    ChainState(h, states, 5);
    assert states[5] == h(states[4]);
    ChallengeMeans(h, states[4]);
  }

  /**
   * The first state determines the trace root, and of key and message only their concatenation; for
   * keys of one length it determines both.
   */
  lemma FirstStateBinds(pk: Bytes, msg: Bytes, root: Digest, pk': Bytes, msg': Bytes, root': Digest)
    ensures FirstState(pk, msg, root) == FirstState(pk', msg', root') <==> pk + msg == pk' + msg' && root == root'
    ensures |pk| == |pk'| ==>
              (FirstState(pk, msg, root) == FirstState(pk', msg', root') <==> pk == pk' && msg == msg' && root == root')
  {
    var s, s' := FirstState(pk, msg, root), FirstState(pk', msg', root');
    var a, a' := pk + msg, pk' + msg';
    assert s[..|a|] == a && s[|a|..] == root;
    assert s'[..|a'|] == a' && s'[|a'|..] == root';
    if |pk| == |pk'| && a == a' {
      assert pk == a[..|pk|] && pk' == a'[..|pk|] && msg == a[|pk|..] && msg' == a'[|pk|..];
    }
  }

  /** Two different keys and messages with the same transcript. */
  lemma SharedTranscript(root: Digest)
    ensures FirstState([1], [2], root) == FirstState([1, 2], [], root)
  {
    assert [1] + [2] == [1, 2] + [];
  }

  lemma {:induction false} ChainsMeet(h: HashFunction, s: Bytes, s': Bytes, n: nat) returns (x: Bytes, y: Bytes)
    requires s != s' && StateAfter(h, s, n) == StateAfter(h, s', n)
    ensures x != y && h(x) == h(y)
    decreases n
  {
    if h(s) == h(s') { x, y := s, s'; } else { x, y := ChainsMeet(h, h(s), h(s'), n - 1); }
  }

  /** Runs that differ in key and message, or in the trace, go on from one state only through a hash collision. */
  lemma TranscriptBinds(h: HashFunction, pk: Bytes, msg: Bytes, root: Digest, pk': Bytes, msg': Bytes, root': Digest)
    returns (x: Bytes, y: Bytes)
    requires pk + msg != pk' + msg' || root != root'
    requires FriState(h, pk, msg, root) == FriState(h, pk', msg', root')
    ensures x != y && h(x) == h(y)
  {
    hide FirstState, StateAfter;
    FirstStateBinds(pk, msg, root, pk', msg', root');
    x, y := ChainsMeet(h, FirstState(pk, msg, root), FirstState(pk', msg', root'), 5);
  }

  // ----- the commit phase

  /** inputs[k] is the state before root k and then root k; the next state is its digest. */
  ghost predicate Absorbs(h: HashFunction, roots: seq<Digest>, state: Bytes, inputs: seq<Bytes>)
  {
    && |inputs| == |roots|
    && (|roots| > 0 ==> Followed(inputs[0], state, roots[0]))
    && forall k | 1 <= k < |roots| :: Followed(inputs[k], h(inputs[k - 1]), roots[k])
  }

  lemma AbsorbsTail(h: HashFunction, roots: seq<Digest>, state: Bytes, inputs: seq<Bytes>)
    requires Absorbs(h, roots, state, inputs) && |roots| > 1
    ensures inputs[0] == Absorb(state, roots[0]) && Absorbs(h, roots[1..], h(inputs[0]), inputs[1..])
  {
    FollowedIs(inputs[0], state, roots[0]);
    var rs, xs := roots[1..], inputs[1..];
    forall k | 1 <= k < |rs|
      ensures Followed(xs[k], h(xs[k - 1]), rs[k])
    {
      var next := k + 1;
      assert Followed(inputs[next], h(inputs[next - 1]), roots[next]);
    }
    var one := 1;
    assert Followed(inputs[one], h(inputs[one - 1]), roots[one]);
  }

  /** The verifier's challenges are drawn from the digests of these inputs, all but the last. */
  lemma {:induction false} BetasMean(h: HashFunction, roots: seq<Digest>, state: Bytes, inputs: seq<Bytes>, k: nat)
    requires Absorbs(h, roots, state, inputs) && k + 1 < |roots|
    ensures ReplayBetas(h, roots, state)[k] == Drawn(h(inputs[k]))
    decreases k
  {
    hide Absorb, Challenge, Drawn, Absorbs;
    AbsorbsShape(h, roots, state, inputs);
    AbsorbsTail(h, roots, state, inputs);
    ChallengeMeans(h, inputs[0]);
    if k > 0 { BetasMean(h, roots[1..], h(inputs[0]), inputs[1..], k - 1); }
  }

  lemma AbsorbsShape(h: HashFunction, roots: seq<Digest>, state: Bytes, inputs: seq<Bytes>)
    requires Absorbs(h, roots, state, inputs)
    ensures |inputs| == |roots|
  {}

  /** The prover ends the commit phase in the last of these inputs: the queries depend on every layer root. */
  lemma {:induction false} CommitStateMeans(h: HashFunction, evals: seq<Felt>, state: Bytes, inputs: seq<Bytes>)
    requires Length(|evals|) && |evals| > 0 && Absorbs(h, Roots(h, Layers(h, evals, state)), state, inputs)
    ensures |inputs| > 0 && CommitState(h, evals, state) == inputs[|inputs| - 1]
    decreases |evals|
  {
    hide Absorb, EvalRoot, Fold, Challenge, PowerOfTwo, Absorbs, Layers, CommitState;
    var layers := Layers(h, evals, state);
    AbsorbsShape(h, Roots(h, layers), state, inputs);
    if |evals| == 1 {
      CommitEnd(h, evals, state);
      OneRoot(h, Roots(h, layers), state, inputs);
    } else {
      CommitStep(h, evals, state);
      var st := Absorb(state, EvalRoot(h, evals));
      var next := Fold(evals, Challenge(h, st));
      assert layers[1..] == Layers(h, next, h(st));
      assert Roots(h, layers)[1..] == Roots(h, layers[1..]);
      AbsorbsTail(h, Roots(h, layers), state, inputs);
      CommitStateMeans(h, next, h(st), inputs[1..]);
    }
  }

  lemma OneRoot(h: HashFunction, roots: seq<Digest>, state: Bytes, inputs: seq<Bytes>)
    requires Absorbs(h, roots, state, inputs) && |roots| == 1
    ensures inputs[0] == Absorb(state, roots[0])
  {
    FollowedIs(inputs[0], state, roots[0]);
  }

  // ----- the queries

  /**
   * The forty positions: the last input of the commit phase and the final element in eight bytes,
   * hashed again and again; position i is drawn from digest i + 1, modulo the domain.
   */
  lemma QueriesMean(h: HashFunction, pk: Bytes, msg: Bytes, matrix: seq<Words>, quotient: Evaluator, proof: StarkProof,
                    inputs: seq<Bytes>, states: seq<Bytes>, i: nat)
    requires Provable(h, pk, msg, matrix, quotient) && IsProof(h, pk, msg, matrix, quotient, proof)
    requires Absorbs(h, proof.layerRoots, FriState(h, pk, msg, proof.traceRoot), inputs) && |proof.layerRoots| > 0
    requires |states| == 41 && Chain(h, states) && i < 40
    requires var x, n := states[0], |inputs[|inputs| - 1]|;
             |x| == n + 8 && x[..n] == inputs[|inputs| - 1] && Number(x[n..], 256) == proof.finalPoly
    ensures |proof.queries| == 40 && |states[i + 1]| == 32
    ensures var evals := Evals(h, pk, msg, matrix, quotient);
            |evals| > 0 && proof.queries[i].index == Drawn(states[i + 1]) % |evals|
            && proof.queries[i].quotientEvals == [evals[proof.queries[i].index]]
  {
    hide PowerOfTwo, TreeOf, Tree, Path, LayerPaths, SentRow, Challenge, Drawn, CommitState, FriState, Le64, Layers,
         Absorbs, StateAfter, Number, Padded, Leaves;
    var evals := Evals(h, pk, msg, matrix, quotient);
    CommitStateMeans(h, evals, FriState(h, pk, msg, proof.traceRoot), inputs);
    var x, n := states[0], |inputs[|inputs| - 1]|;
    assert x == x[..n] + x[n..];
    FinalBytes(proof.finalPoly, x[n..]);
    ChainState(h, states, i);
    var next := i + 1;
    assert states[next] == h(states[next - 1]);
    ChallengeMeans(h, states[i]);
  }

  /**
   * The row opened: with n2 the least power of two that holds the trace, the row at the position
   * modulo n2, or a row of zeros beyond the last one.
   */
  lemma RowsMean(h: HashFunction, pk: Bytes, msg: Bytes, matrix: seq<Words>, quotient: Evaluator, proof: StarkProof,
                 n2: nat, i: nat)
    requires Provable(h, pk, msg, matrix, quotient) && IsProof(h, pk, msg, matrix, quotient, proof) && i < 40
    requires PowerOfTwo(n2) && n2 >= |matrix| && (n2 == 1 || n2 / 2 < |matrix|)
    ensures |proof.queries| == 40 && n2 > 0
    ensures var q := proof.queries[i]; var at := q.index % n2;
            if at < |matrix| then q.traceEvals == matrix[at]
            else |q.traceEvals| == |matrix[0]| && forall k | 0 <= k < |matrix[0]| :: q.traceEvals[k] == 0
  {
    hide PowerOfTwo, Tree, TreeRoot, TreeOf, Path, LayerPaths, Padded, Leaves, Layers, OpeningAt, Challenge, FriState,
         Position, QueryState;
    var evals := Evals(h, pk, msg, matrix, quotient);
    var layers := Layers(h, evals, FriState(h, pk, msg, proof.traceRoot));
    LeavesPresent(Padded(Leaves(h, matrix)));
    OpeningParts(h, matrix, evals, layers, proof.queries[i]);
    LeastPower(|Padded(Leaves(h, matrix))|, n2, |matrix|);
  }

  lemma {:induction false} ShiftPower(k: nat)
    ensures ShiftLeftOne(k) == Pow(2, k)
  {
    if k > 0 { ShiftPower(k - 1); }
  }

  /**
   * The paths of a query: one for each of the log2(n) + 1 layers, that of layer l generated at the
   * position shifted by l bits, modulo the number of levels of its tree.
   */
  lemma LayerPathsMean(h: HashFunction, pk: Bytes, msg: Bytes, matrix: seq<Words>, quotient: Evaluator,
                       proof: StarkProof, i: nat, l: nat)
    requires Provable(h, pk, msg, matrix, quotient) && IsProof(h, pk, msg, matrix, quotient, proof) && i < 40
    requires l <= Log2(|Evals(h, pk, msg, matrix, quotient)|)
    ensures var evals := Evals(h, pk, msg, matrix, quotient);
            var layers := Layers(h, evals, FriState(h, pk, msg, proof.traceRoot));
            var q := proof.queries[i];
            && |proof.queries| == 40 && |q.friPaths| == |layers| == Log2(|evals|) + 1
            && q.quotientPath == Path(TreeOf(h, evals), q.index) && Pow(2, l) > 0
            && q.friPaths[l] == Path(TreeOf(h, layers[l]), q.index / Pow(2, l) % |TreeOf(h, layers[l])|)
  {
    hide PowerOfTwo, Tree, TreeRoot, TreeOf, Path, Padded, Leaves, Layers, OpeningAt, Challenge, FriState,
         Position, QueryState, ReplayBetas, Roots, Fold;
    var evals := Evals(h, pk, msg, matrix, quotient);
    var state := FriState(h, pk, msg, proof.traceRoot);
    var layers := Layers(h, evals, state);
    LeavesPresent(Padded(Leaves(h, matrix)));
    OpeningParts(h, matrix, evals, layers, proof.queries[i]);
    ReplayFollowsProver(h, evals, state);
    ShiftPower(l);
  }

  /** There is one least power of two from m on. */
  lemma LeastPower(a: nat, b: nat, m: nat)
    requires PowerOfTwo(a) && a >= m && (a == 1 || a / 2 < m)
    requires PowerOfTwo(b) && b >= m && (b == 1 || b / 2 < m)
    ensures a == b > 0
  {
    hide PowerOfTwo;
    PositivePower(a);
    PositivePower(b);
    if a < b { NoPowerBetween(b, a); } else if b < a { NoPowerBetween(a, b); }
  }

  lemma PositivePower(n: nat)
    requires PowerOfTwo(n)
    ensures n > 0
  {}

  lemma FinalBytes(v: U64, b: Bytes)
    requires |b| == 8 && Number(b, 256) == v
    ensures b == Le64(v)
  {
    hide Le64, Number;
    Le64RoundTrip(v);
    WordNumber(Le64(v));
    WordNumber(b);
    NumberInjective(b, Le64(v), 256);
  }
}
