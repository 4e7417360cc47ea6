/**
 * The proof protocol of solomon-zk: the prover's transcript, commitments and query openings
 * (prover.rs, fri.rs) and the verifier's replay and path checks (verifier.rs), over an arbitrary
 * hash function and an arbitrary quotient evaluator.
 */
module Stark {
  import opened Basics
  import opened Goldilocks
  import opened Fourier
  import opened FriFolding
  import opened Merkle
  import opened Transcript

  const NUM_FRI_QUERIES := 40

  /** Field elements as they travel: 64-bit words. */
  type Words = seq<U64>

  datatype Opening = Opening(index: nat, traceEvals: Words, quotientEvals: Words,
                             tracePath: seq<Digest>, quotientPath: seq<Digest>, friPaths: seq<seq<Digest>>)

  datatype StarkProof = StarkProof(traceRoot: Digest, quotientRoot: Digest, layerRoots: seq<Digest>,
    queries: seq<Opening>, finalPoly: U64)

  // ----- leaves

  function RowBytes(row: Words): (r: Bytes)
    decreases |row|
  {
    hide Le64;
    if row == [] then [] else Le64(row[0]) + RowBytes(row[1..])
  }

  function Leaf(h: HashFunction, row: Words): Digest
  {
    h(RowBytes(row))
  }

  function Leaves(h: HashFunction, matrix: seq<Words>): (r: seq<Digest>)
    ensures |r| == |matrix| && forall i | 0 <= i < |matrix| :: r[i] == Leaf(h, matrix[i])
  {
    hide Leaf;
    seq(|matrix|, i requires 0 <= i < |matrix| => Leaf(h, matrix[i]))
  }

  /** Evaluations as rows of one element. */
  function Singles(evals: seq<Felt>): (r: seq<Words>)
    ensures |r| == |evals| && forall i | 0 <= i < |evals| :: r[i] == [evals[i]]
  {
    seq(|evals|, i requires 0 <= i < |evals| => [evals[i]])
  }

  function EvalLeaves(h: HashFunction, evals: seq<Felt>): (r: seq<Digest>)
    ensures |r| == |evals|
  {
    Leaves(h, Singles(evals))
  }

  /** build_merkle_tree_from_matrix and merkleize_evals: hash every row, then build. */
  method CommitRows(h: HashFunction, rows: seq<Words>) returns (root: Digest, layers: seq<seq<Digest>>)
    requires rows != []
    ensures root == TreeRoot(h, Padded(Leaves(h, rows))) && layers == Tree(h, Padded(Leaves(h, rows)))
  {
    hide Leaf, Tree, TreeRoot, Padded;
    var leaves := [];
    for i := 0 to |rows|
      invariant |leaves| == i && forall k | 0 <= k < i :: leaves[k] == Leaf(h, rows[k])
    {
      leaves := leaves + [Leaf(h, rows[i])];
    }
    assert leaves == Leaves(h, rows);
    root, layers := BuildMerkleTree(h, leaves);
  }

  // ----- the commit phase

  function EvalRoot(h: HashFunction, evals: seq<Felt>): Digest
  {
    TreeRoot(h, Padded(EvalLeaves(h, evals)))
  }

  /** The state once the root of a layer is absorbed. */
  function Absorb(state: Bytes, d: Digest): Bytes
  {
    var b: Bytes := d;
    state + b
  }

  /** The layers the folding loop goes through. */
  ghost function Layers(h: HashFunction, evals: seq<Felt>, state: Bytes): (r: seq<seq<Felt>>)
    requires Length(|evals|)
    ensures |r| > 0 && r[0] == evals
    decreases |evals|
  {
    hide Fold, EvalRoot, Challenge, PowerOfTwo, Absorb;
    if |evals| <= 1 then [evals]
    else
      HalfRoot(|evals|);
      var st := Absorb(state, EvalRoot(h, evals));
      [evals] + Layers(h, Fold(evals, Challenge(h, st)), h(st))
  }

  ghost function CommitState(h: HashFunction, evals: seq<Felt>, state: Bytes): Bytes
    requires Length(|evals|)
    decreases |evals|
  {
    hide Fold, EvalRoot, Challenge, PowerOfTwo, Absorb;
    var st := Absorb(state, EvalRoot(h, evals));
    if |evals| <= 1 then st
    else
      HalfRoot(|evals|);
      CommitState(h, Fold(evals, Challenge(h, st)), h(st))
  }

  ghost function Roots(h: HashFunction, layers: seq<seq<Felt>>): (r: seq<Digest>)
    ensures |r| == |layers| && forall i | 0 <= i < |layers| :: r[i] == EvalRoot(h, layers[i])
  {
    hide EvalRoot;
    seq(|layers|, i requires 0 <= i < |layers| => EvalRoot(h, layers[i]))
  }

  /** The verifier's replay: absorb each root, draw a challenge after every root but the last. */
  function ReplayBetas(h: HashFunction, roots: seq<Digest>, state: Bytes): (r: seq<Felt>)
    ensures |r| == if |roots| == 0 then 0 else |roots| - 1
    decreases |roots|
  {
    hide Challenge, Absorb;
    if |roots| <= 1 then []
    else
      var st := Absorb(state, roots[0]);
      [Challenge(h, st)] + ReplayBetas(h, roots[1..], h(st))
  }

  /**
   * The replayed challenges are the prover's: there is one per round, and each folds its layer to
   * the next.
   */
  lemma {:induction false} ReplayFollowsProver(h: HashFunction, evals: seq<Felt>, state: Bytes)
    requires Length(|evals|) && |evals| > 0
    ensures var layers := Layers(h, evals, state); var betas := ReplayBetas(h, Roots(h, layers), state);
            && |layers| == Log2(|evals|) + 1 && |betas| == Log2(|evals|)
            && |layers[|betas|]| == 1 && FoldRounds(evals, betas) == layers[|betas|]
    decreases |evals|
  {
    hide Fold, EvalRoot, Challenge, PowerOfTwo, Absorb;
    if |evals| > 1 {
      HalfRoot(|evals|);
      var st := Absorb(state, EvalRoot(h, evals));
      var next := Fold(evals, Challenge(h, st));
      ReplayFollowsProver(h, next, h(st));
      var layers := Layers(h, evals, state);
      assert Roots(h, layers)[1..] == Roots(h, layers[1..]);
      assert layers[1..] == Layers(h, next, h(st));
    }
  }

  /** Each replayed challenge folds its layer to the next, whose length is half. */
  lemma {:induction false} LayerFolds(h: HashFunction, evals: seq<Felt>, state: Bytes, k: nat)
    requires Length(|evals|) && |evals| > 0 && k < Log2(|evals|)
    ensures var layers := Layers(h, evals, state); var betas := ReplayBetas(h, Roots(h, layers), state);
            && |layers| == Log2(|evals|) + 1 && |betas| == Log2(|evals|)
            && |layers[k]| > 1 && layers[k + 1] == Fold(layers[k], betas[k])
    decreases |evals|
  {
    hide Fold, EvalRoot, Challenge, PowerOfTwo, Absorb;
    HalfRoot(|evals|);
    var st := Absorb(state, EvalRoot(h, evals));
    var next := Fold(evals, Challenge(h, st));
    ReplayFollowsProver(h, evals, state);
    var layers := Layers(h, evals, state);
    assert Roots(h, layers)[1..] == Roots(h, layers[1..]);
    assert layers[1..] == Layers(h, next, h(st));
    if k > 0 { LayerFolds(h, next, h(st), k - 1); }
  }

  /**
   * With honest evaluations the final element is the constant the coefficients fold to under the
   * verifier's challenges.
   */
  lemma FinalElement(h: HashFunction, c: seq<Felt>, state: Bytes)
    requires Length(|c|) && |c| > 0
    ensures var evals := Dft(c, Root(|c|));
            var layers := Layers(h, evals, state);
            var betas := ReplayBetas(h, Roots(h, layers), state);
            |layers| > |betas| && layers[|betas|] == FoldCoeffRounds(c, betas)
  {
    hide Dft, Root, PowerOfTwo, Layers, Roots, ReplayBetas, FoldCoeffRounds, FoldRounds;
    var evals := Dft(c, Root(|c|));
    ReplayFollowsProver(h, evals, state);
    FinalConstant(c, ReplayBetas(h, Roots(h, Layers(h, evals, state)), state));
  }

  function TreeOf(h: HashFunction, evals: seq<Felt>): (r: seq<seq<Digest>>)
    ensures |r| > 0
  {
    hide Tree;
    Tree(h, Padded(EvalLeaves(h, evals)))
  }

  /** merkleize_evals. */
  method MerkleizeEvals(h: HashFunction, evals: seq<Felt>) returns (root: Digest, tree: seq<seq<Digest>>)
    requires evals != []
    ensures root == EvalRoot(h, evals) && tree == TreeOf(h, evals)
  {
    hide Tree, TreeRoot, Padded, Leaves;
    root, tree := CommitRows(h, Singles(evals));
  }

  /** The folding loop: commit, draw, fold, until one element is left. */
  method CommitPhase(ch: Challenger, evals: seq<Felt>)
    returns (roots: seq<Digest>, trees: seq<seq<seq<Digest>>>, finalConstant: Felt)
    requires Length(|evals|) && |evals| > 1
    modifies ch
    ensures ch.absorbed == CommitState(ch.hash, evals, old(ch.absorbed))
    ensures var layers := Layers(ch.hash, evals, old(ch.absorbed));
            && roots == Roots(ch.hash, layers) && |layers[|layers| - 1]| == 1
              && finalConstant == layers[|layers| - 1][0]
            && |trees| == |layers| && forall l | 0 <= l < |layers| :: trees[l] == TreeOf(ch.hash, layers[l])
  {
    hide EvalRoot, TreeOf, Fold, Challenge, PowerOfTwo, Absorb, Layers, CommitState, Roots;
    var h := ch.hash;
    ghost var start := ch.absorbed;
    var root, tree := MerkleizeEvals(h, evals);
    roots, trees := [root], [tree];
    AbsorbIs(ch.absorbed, root);
    ch.ObserveSlice(root);
    var current := evals;
    ghost var done: seq<seq<Felt>> := [];
    ghost var pre := start;
    while |current| > 1
      invariant Length(|current|) && |current| > 0 && ch.absorbed == Absorb(pre, EvalRoot(h, current))
      invariant Layers(h, evals, start) == done + Layers(h, current, pre)
      invariant CommitState(h, evals, start) == CommitState(h, current, pre)
      invariant |roots| == |done| + 1 && |trees| == |done| + 1
      invariant forall l | 0 <= l <= |done| ::
                  && roots[l] == EvalRoot(h, (done + [current])[l])
                  && trees[l] == TreeOf(h, (done + [current])[l])
      decreases |current|
    {
      CommitStep(h, current, pre);
      var beta := ch.SampleExt();
      var next := FoldLayer(current, beta);
      ghost var done' := done + [current];
      assert forall l | 0 <= l <= |done| :: (done' + [next])[l] == (done + [current])[l];
      pre := ch.absorbed;
      done := done';
      current := next;
      root, tree := MerkleizeEvals(h, current);
      AbsorbIs(ch.absorbed, root);
      ch.ObserveSlice(root);
      roots, trees := roots + [root], trees + [tree];
    }
    CommitEnd(h, current, pre);
    finalConstant := current[0];
    assert roots == Roots(h, Layers(h, evals, start));
  }

  lemma AbsorbIs(state: Bytes, d: Digest)
    ensures Absorb(state, d) == state + d
  {}

  lemma CommitStep(h: HashFunction, evals: seq<Felt>, state: Bytes)
    requires Length(|evals|) && |evals| > 1
    ensures var st := Absorb(state, EvalRoot(h, evals));
            var next := Fold(evals, Challenge(h, st));
            && Length(|next|) && 0 < |next| < |evals|
            && Layers(h, evals, state) == [evals] + Layers(h, next, h(st))
            && CommitState(h, evals, state) == CommitState(h, next, h(st))
  {
    hide Fold, EvalRoot, Challenge, Absorb, PowerOfTwo;
    HalfRoot(|evals|);
  }

  lemma CommitEnd(h: HashFunction, evals: seq<Felt>, state: Bytes)
    requires Length(|evals|) && |evals| == 1
    ensures Layers(h, evals, state) == [evals] && CommitState(h, evals, state) == Absorb(state, EvalRoot(h, evals))
  {
    hide EvalRoot, Absorb;
  }

  // ----- openings

  function ZeroRow(width: nat): (r: Words)
    ensures |r| == width && forall i | 0 <= i < width :: r[i] == 0
  {
    seq(width, _ => 0)
  }

  /** The row sent for a trace position: the row itself, or zeros beyond the last row. */
  function SentRow(matrix: seq<Words>, idx: nat): Words
    requires matrix != []
  {
    if idx < |matrix| then matrix[idx] else ZeroRow(|matrix[0]|)
  }

  /** The position a layer path is generated for: reduced by the number of levels of that layer's tree. */
  function StoredPosition(tree: seq<seq<Digest>>, query: nat, l: nat): nat
    requires |tree| > 0
  {
    (query / ShiftLeftOne(l)) % |tree|
  }

  /** The path stored for layer l. */
  function LayerPath(tree: seq<seq<Digest>>, query: nat, l: nat): seq<Digest>
    requires |tree| > 0
  {
    hide Path, StoredPosition;
    Path(tree, StoredPosition(tree, query, l))
  }

  function LayerPaths(trees: seq<seq<seq<Digest>>>, query: nat): (r: seq<seq<Digest>>)
    requires forall l | 0 <= l < |trees| :: |trees[l]| > 0
    ensures |r| == |trees| && forall l | 0 <= l < |trees| :: r[l] == LayerPath(trees[l], query, l)
  {
    hide LayerPath;
    seq(|trees|, l requires 0 <= l < |trees| => LayerPath(trees[l], query, l))
  }

  ghost predicate Openable(matrix: seq<Words>, traceTree: seq<seq<Digest>>, trees: seq<seq<seq<Digest>>>)
  {
    && matrix != [] && |traceTree| > 0 && |traceTree[0]| > 0 && |trees| > 0
    && forall l | 0 <= l < |trees| :: |trees[l]| > 0
  }

  function OpeningAt(matrix: seq<Words>, traceTree: seq<seq<Digest>>, evals: seq<Felt>, trees: seq<seq<seq<Digest>>>,
                     query: nat): Opening
    requires Openable(matrix, traceTree, trees) && query < |evals|
  {
    hide Path, LayerPaths, SentRow;
    var idx := query % |traceTree[0]|;
    Opening(query, SentRow(matrix, idx), [evals[query]], Path(traceTree, idx), Path(trees[0], query),
      LayerPaths(trees, query))
  }

  method OpenQuery(matrix: seq<Words>, traceTree: seq<seq<Digest>>, evals: seq<Felt>, trees: seq<seq<seq<Digest>>>,
                   query: nat)
    returns (q: Opening)
    requires Openable(matrix, traceTree, trees) && query < |evals|
    ensures q == OpeningAt(matrix, traceTree, evals, trees, query)
  {
    hide Path, LayerPath, SentRow;
    var idx := query % |traceTree[0]|;
    var row := SentRow(matrix, idx);
    var tracePath := GenerateMerkleProof(traceTree, idx);
    var quotientPath := GenerateMerkleProof(trees[0], query);
    var friPaths: seq<seq<Digest>> := [];
    for l := 0 to |trees|
      invariant |friPaths| == l && forall k | 0 <= k < l :: friPaths[k] == LayerPath(trees[k], query, k)
    {
      friPaths := friPaths + [LayerPath(trees[l], query, l)];
    }
    q := Opening(query, row, [evals[query]], tracePath, quotientPath, friPaths);
  }

  /** The forty openings, at positions drawn one after the other. */
  method QueryPhase(ch: Challenger, matrix: seq<Words>, traceTree: seq<seq<Digest>>, evals: seq<Felt>,
                    trees: seq<seq<seq<Digest>>>)
    returns (queries: seq<Opening>)
    requires Openable(matrix, traceTree, trees) && evals != []
    modifies ch
    ensures |queries| == NUM_FRI_QUERIES
    ensures forall i | 0 <= i < NUM_FRI_QUERIES ::
              queries[i] == OpeningAt(matrix, traceTree, evals, trees, Position(ch.hash, old(ch.absorbed), i, |evals|))
  {
    hide Challenge, OpeningAt, Openable;
    queries := [];
    ghost var start := ch.absorbed;
    for i := 0 to NUM_FRI_QUERIES
      invariant |queries| == i && ch.absorbed == StateAfter(ch.hash, start, i)
      invariant forall k | 0 <= k < i ::
                queries[k] == OpeningAt(matrix, traceTree, evals, trees, Position(ch.hash, start, k, |evals|))
    {
      StateStep(ch.hash, start, i);
      var challenge := ch.SampleExt();
      var query := challenge % |evals|;
      var q := OpenQuery(matrix, traceTree, evals, trees, query);
      queries := queries + [q];
    }
  }

  /** The i-th query position. */
  function Position(h: HashFunction, state: Bytes, i: nat, n: nat): (r: nat)
    requires n > 0
    ensures r < n
  {
    Challenge(h, StateAfter(h, state, i)) % n
  }

  lemma {:induction false} StateStep(h: HashFunction, state: Bytes, i: nat)
    ensures StateAfter(h, state, i + 1) == h(StateAfter(h, state, i))
    decreases i
  {
    if i > 0 { StateStep(h, h(state), i - 1); }
  }

  // ----- the whole proof

  /** The quotient evaluator and low-degree extension, as a function of the challenges. */
  type Evaluator = (seq<Felt>, Felt) -> seq<Felt>

  function TraceRoot(h: HashFunction, matrix: seq<Words>): Digest
  {
    TreeRoot(h, Padded(Leaves(h, matrix)))
  }

  function FirstState(pk: Bytes, msg: Bytes, traceRoot: Digest): Bytes
  {
    Absorb(pk + msg, traceRoot)
  }

  function Alphas(h: HashFunction, pk: Bytes, msg: Bytes, traceRoot: Digest): seq<Felt>
  {
    Challenges(h, FirstState(pk, msg, traceRoot), 4)
  }

  function Zeta(h: HashFunction, pk: Bytes, msg: Bytes, traceRoot: Digest): Felt
  {
    Challenge(h, StateAfter(h, FirstState(pk, msg, traceRoot), 4))
  }

  function FriState(h: HashFunction, pk: Bytes, msg: Bytes, traceRoot: Digest): Bytes
  {
    StateAfter(h, FirstState(pk, msg, traceRoot), 5)
  }

  function Evals(h: HashFunction, pk: Bytes, msg: Bytes, matrix: seq<Words>, quotient: Evaluator): seq<Felt>
  {
    var root := TraceRoot(h, matrix);
    quotient(Alphas(h, pk, msg, root), Zeta(h, pk, msg, root))
  }

  /** The opening both sides run: key, message and trace root, then four alphas and zeta. */
  method OpenTranscript(ch: Challenger, pk: Bytes, msg: Bytes, traceRoot: Digest)
    returns (alphas: seq<Felt>, zeta: Felt)
    requires ch.absorbed == []
    modifies ch
    ensures alphas == Alphas(ch.hash, pk, msg, traceRoot) && zeta == Zeta(ch.hash, pk, msg, traceRoot)
    ensures ch.absorbed == FriState(ch.hash, pk, msg, traceRoot)
  {
    hide Challenge, Challenges, StateAfter, Absorb;
    ch.ObserveSlice(pk);
    ch.ObserveSlice(msg);
    AbsorbIs(pk + msg, traceRoot);
    assert [] + pk == pk;
    ch.ObserveSlice(traceRoot);
    alphas := ch.SampleAlphas(4);
    zeta := ch.SampleExt();
    FiveDraws(ch.hash, FirstState(pk, msg, traceRoot));
  }

  /** What the prover is given: a trace and an evaluator whose domain is one the transforms handle. */
  ghost predicate Provable(h: HashFunction, pk: Bytes, msg: Bytes, matrix: seq<Words>, quotient: Evaluator)
  {
    var n := |Evals(h, pk, msg, matrix, quotient)|;
    matrix != [] && n > 1 && Length(n)
  }

  /** The proof has the commitments and openings of an honest run. */
  ghost predicate IsProof(h: HashFunction, pk: Bytes, msg: Bytes, matrix: seq<Words>, quotient: Evaluator,
                          proof: StarkProof)
    requires Provable(h, pk, msg, matrix, quotient)
  {
    hide PowerOfTwo, TreeOf, Tree, OpeningAt, Position, QueryState;
    var evals := Evals(h, pk, msg, matrix, quotient);
    var traceTree := Tree(h, Padded(Leaves(h, matrix)));
    var layers := Layers(h, evals, FriState(h, pk, msg, proof.traceRoot));
    && proof.traceRoot == TraceRoot(h, matrix)
    && proof.layerRoots == Roots(h, layers) && proof.quotientRoot == proof.layerRoots[0]
    && layers[|layers| - 1] == [proof.finalPoly]
    && |proof.queries| == NUM_FRI_QUERIES
    && forall i | 0 <= i < NUM_FRI_QUERIES ::
         && proof.queries[i].index == Position(h, QueryState(h, pk, msg, evals, proof), i, |evals|)
         && OpensLayers(h, matrix, traceTree, evals, layers, proof.queries[i])
  }

  /** The transcript when the queries are drawn: after the last root and the final element. */
  ghost function QueryState(h: HashFunction, pk: Bytes, msg: Bytes, evals: seq<Felt>, proof: StarkProof): Bytes
    requires Length(|evals|)
  {
    hide PowerOfTwo, CommitState, FriState, Le64;
    CommitState(h, evals, FriState(h, pk, msg, proof.traceRoot)) + Le64(proof.finalPoly)
  }

  ghost function Trees(h: HashFunction, layers: seq<seq<Felt>>): (r: seq<seq<seq<Digest>>>)
    ensures |r| == |layers| && forall l | 0 <= l < |layers| :: r[l] == TreeOf(h, layers[l])
  {
    hide TreeOf;
    seq(|layers|, l requires 0 <= l < |layers| => TreeOf(h, layers[l]))
  }

  ghost predicate OpensLayers(h: HashFunction, matrix: seq<Words>, traceTree: seq<seq<Digest>>, evals: seq<Felt>,
                              layers: seq<seq<Felt>>, q: Opening)
    requires matrix != [] && |traceTree| > 0 && |traceTree[0]| > 0 && |layers| > 0
  {
    hide TreeOf, OpeningAt;
    q.index < |evals| && q == OpeningAt(matrix, traceTree, evals, Trees(h, layers), q.index)
  }

  lemma OpeningOpens(h: HashFunction, matrix: seq<Words>, traceTree: seq<seq<Digest>>, evals: seq<Felt>,
                     layers: seq<seq<Felt>>, query: nat)
    requires Openable(matrix, traceTree, Trees(h, layers)) && query < |evals|
    ensures var q := OpeningAt(matrix, traceTree, evals, Trees(h, layers), query);
            q.index == query && OpensLayers(h, matrix, traceTree, evals, layers, q)
  {
    hide TreeOf, Path, LayerPaths, SentRow;
  }

  /** generate_stark_proof, from the trace matrix on. */
  method GenerateProof(h: HashFunction, pk: Bytes, msg: Bytes, matrix: seq<Words>, quotient: Evaluator)
    returns (proof: StarkProof)
    requires Provable(h, pk, msg, matrix, quotient)
    ensures IsProof(h, pk, msg, matrix, quotient, proof)
  {
    hide PowerOfTwo, TreeOf, Tree, TreeRoot, OpeningAt, Padded, Leaves, Layers, Roots, Challenge, Challenges,
         OpensLayers,
         CommitState, Absorb, StateAfter, Le64, Position, Alphas, Zeta, FriState, Trees;
    var ch := new Challenger(h);
    var traceRoot, traceTree := CommitRows(h, matrix);
    var alphas, zeta := OpenTranscript(ch, pk, msg, traceRoot);
    var evals := quotient(alphas, zeta);
    assert evals == Evals(h, pk, msg, matrix, quotient);
    ghost var layers := Layers(h, evals, FriState(h, pk, msg, traceRoot));
    var roots, trees, finalConstant := CommitPhase(ch, evals);
    assert trees == Trees(h, layers);
    ch.Observe(finalConstant);
    ghost var drawn := ch.absorbed;
    var queries := QueryPhase(ch, matrix, traceTree, evals, trees);
    forall i | 0 <= i < NUM_FRI_QUERIES
      ensures queries[i].index == Position(h, drawn, i, |evals|)
      ensures OpensLayers(h, matrix, traceTree, evals, layers, queries[i])
    {
      OpeningOpens(h, matrix, traceTree, evals, layers, Position(h, drawn, i, |evals|));
    }
    proof := StarkProof(traceRoot, roots[0], roots, queries, finalConstant);
  }

  lemma FiveDraws(h: HashFunction, state: Bytes)
    ensures h(StateAfter(h, state, 4)) == StateAfter(h, state, 5)
  {}

  // ----- verification

  datatype Failure =
    | InvalidProofPayload | InvalidFieldElement | NullMerkleRoot | AlphaChallengeMismatch | ZetaChallengeMismatch
    | FriFoldingMismatch | TraceMerkleDecommitmentFailed | QuotientMerkleDecommitmentFailed | FriColinearityCheckFailed

  /** Panicked: a domain larger than 2^32, for which get_root_of_unity stops the program. */
  datatype Verdict = Accepted | Refused(failure: Failure) | Panicked

  /** verify_merkle_proof at index mod 2^depth. */
  ghost predicate PathOk(h: HashFunction, root: Digest, row: Words, path: seq<Digest>, index: nat)
  {
    Climb(h, Leaf(h, row), path, index) == root
  }

  ghost predicate TraceOk(h: HashFunction, proof: StarkProof, q: Opening)
  {
    q.traceEvals != [] && q.tracePath != [] && PathOk(h, proof.traceRoot, q.traceEvals, q.tracePath, q.index)
  }

  ghost predicate QuotientOk(h: HashFunction, proof: StarkProof, q: Opening)
  {
    proof.layerRoots != [] && q.quotientEvals != [] ==>
      PathOk(h, proof.layerRoots[0], [q.quotientEvals[0]], q.quotientPath, q.index)
  }

  /** The per-layer loop: it asks for a value and for non-empty inner paths, and nothing else. */
  ghost predicate LayersOk(q: Opening, rounds: nat)
  {
    |q.friPaths| >= 2 ==>
      && q.quotientEvals != []
      && (rounds > 0 ==> |q.friPaths| <= 32)
      && forall t | 1 <= t <= rounds && t < |q.friPaths| - 1 :: q.friPaths[t] != []
  }

  ghost predicate QueryOk(h: HashFunction, proof: StarkProof, q: Opening)
  {
    TraceOk(h, proof, q) && QuotientOk(h, proof, q) && LayersOk(q, Rounds(proof))
  }

  function Rounds(proof: StarkProof): nat
  {
    if proof.layerRoots == [] then 0 else |proof.layerRoots| - 1
  }

  ghost predicate AllZero(alphas: seq<Felt>)
  {
    forall i | 0 <= i < |alphas| :: alphas[i] == 0
  }

  /** The challenges derived from the commitments are not degenerate. */
  ghost predicate Nondegenerate(h: HashFunction, pk: Bytes, msg: Bytes, traceRoot: Digest)
  {
    traceRoot != ZeroDigest() && !AllZero(Alphas(h, pk, msg, traceRoot)) && Zeta(h, pk, msg, traceRoot) != 0
  }

  /** The proofs verify_stark_proof accepts. */
  ghost predicate Accepts(h: HashFunction, proof: StarkProof, pk: Bytes, msg: Bytes)
  {
    && Nondegenerate(h, pk, msg, proof.traceRoot) && proof.finalPoly < P && proof.queries != []
    && forall i | 0 <= i < |proof.queries| :: QueryOk(h, proof, proof.queries[i])
  }

  /** The outcome of the per-layer loop. */
  ghost function LayersVerdict(q: Opening, rounds: nat): Verdict
  {
    if LayersOk(q, rounds) then Accepted
    else if q.quotientEvals != [] && rounds > 0 && |q.friPaths| > 32 then Panicked
    else Refused(FriColinearityCheckFailed)
  }

  /** The first check a query fails. */
  ghost function QueryVerdict(h: HashFunction, proof: StarkProof, q: Opening): Verdict
  {
    if q.traceEvals == [] || q.tracePath == [] then Refused(FriColinearityCheckFailed)
    else if !TraceOk(h, proof, q) then Refused(TraceMerkleDecommitmentFailed)
    else if !QuotientOk(h, proof, q) then Refused(QuotientMerkleDecommitmentFailed)
    else LayersVerdict(q, Rounds(proof))
  }

  /** Which check each error of a query stands for. */
  lemma QueryErrors(h: HashFunction, proof: StarkProof, q: Opening)
    ensures var v := QueryVerdict(h, proof, q);
            var present := q.traceEvals != [] && q.tracePath != [];
            var trace := Climb(h, Leaf(h, q.traceEvals), q.tracePath, q.index) == proof.traceRoot;
            var committed := proof.layerRoots != [] && q.quotientEvals != [];
            var quotient := committed ==>
                Climb(h, Leaf(h, [q.quotientEvals[0]]), q.quotientPath, q.index) == proof.layerRoots[0];
            && (v == Refused(TraceMerkleDecommitmentFailed) <==> present && !trace)
            && (v == Refused(QuotientMerkleDecommitmentFailed) <==> present && trace && !quotient)
            && (v == Panicked <==> && present && trace && quotient && q.quotientEvals != []
                                   && |proof.layerRoots| > 1 && |q.friPaths| > 32)
            && (v.Accepted? <==> QueryOk(h, proof, q))
            && (v.Refused? ==> v.failure in {TraceMerkleDecommitmentFailed, QuotientMerkleDecommitmentFailed,
                                             FriColinearityCheckFailed})
  {
    hide Climb, Leaf;
  }

  /** v is the verdict of the first query that is not accepted. */
  ghost predicate FirstFailure(h: HashFunction, proof: StarkProof, v: Verdict)
  {
    exists i | 0 <= i < |proof.queries| ::
      && v == QueryVerdict(h, proof, proof.queries[i]) && !QueryOk(h, proof, proof.queries[i])
      && forall k | 0 <= k < i :: QueryOk(h, proof, proof.queries[k])
  }

  /** Step 3 for one query. */
  method CheckLayers(q: Opening, rounds: nat) returns (v: Verdict)
    ensures v == LayersVerdict(q, rounds)
  {
    hide PowerOfTwo, ShiftLeftOne, FPow, Root, FInv;
    var plen := |q.friPaths|;
    if plen < 2 { return Accepted; }
    if q.quotientEvals == [] { return Refused(FriColinearityCheckFailed); }
    if rounds > 0 && plen > 32 { return Panicked; }
    var idx: nat := q.index;
    var k: nat := 0;
    var domain: nat := ShiftLeftOne(plen);
    while k < rounds && k + 1 < plen
      invariant k <= plen - 1 && domain == ShiftLeftOne(plen - k)
      invariant forall t | 1 <= t <= k && t < plen - 1 :: q.friPaths[t] != []
    {
      DomainFits(plen - k);
      var half := domain / 2;
      var i := idx % half;
      RemainderBelow(idx, half);
      var omega := GetRootOfUnity(domain);
      var x := Exp(omega, i);
      DomainPointInvertible(domain, i);
      if k + 1 < plen - 1 && q.friPaths[k + 1] == [] { return Refused(FriColinearityCheckFailed); }
      if k + 2 == plen && x == 0 { return Refused(FriFoldingMismatch); }
      idx, domain := i, half;
      k := k + 1;
    }
    return Accepted;
  }

  lemma RemainderBelow(a: nat, m: nat)
    requires 0 < m <= TWO_32
    ensures 0 <= a % m < TWO_64
  {}

  /** 1 << k for 2 <= k <= 32 is a length with a root of unity. */
  lemma DomainFits(k: nat)
    requires 2 <= k <= 32
    ensures Length(ShiftLeftOne(k)) && ShiftLeftOne(k) / 2 == ShiftLeftOne(k - 1) && 0 < ShiftLeftOne(k) / 2 <= TWO_32
  {
    ShiftIsPower(k);
    ShiftIsPower(k - 1);
    ShiftMonotone(k, 32);
    ShiftTo32();
  }

  lemma {:induction false} ShiftIsPower(k: nat)
    ensures PowerOfTwo(ShiftLeftOne(k)) && ShiftLeftOne(k) > 0
  {
    if k > 0 {
      ShiftIsPower(k - 1);
      HalfOfDouble(ShiftLeftOne(k - 1));
    }
  }

  lemma {:induction false} ShiftMonotone(j: nat, k: nat)
    requires j <= k
    ensures ShiftLeftOne(j) <= ShiftLeftOne(k)
  {
    if j < k {
      ShiftMonotone(j, k - 1);
      ShiftIsPower(k - 1);
    }
  }

  lemma ShiftTo32()
    ensures ShiftLeftOne(32) == TWO_32
  {
    assert ShiftLeftOne(8) == 256;
    assert ShiftLeftOne(16) == 65536;
    assert ShiftLeftOne(24) == 16777216;
  }

  /** verify_stark_proof, from the decoded proof on. */
  method VerifyStarkProof(h: HashFunction, proof: StarkProof, pk: Bytes, msg: Bytes)
    returns (v: Verdict, betas: seq<Felt>)
    ensures v.Accepted? <==> Accepts(h, proof, pk, msg)
    ensures if proof.traceRoot == ZeroDigest() then v == Refused(NullMerkleRoot)
            else if proof.finalPoly >= P then v == Refused(InvalidFieldElement)
            else if proof.queries == [] then v == Refused(InvalidProofPayload)
            else if AllZero(Alphas(h, pk, msg, proof.traceRoot)) then v == Refused(AlphaChallengeMismatch)
            else if Zeta(h, pk, msg, proof.traceRoot) == 0 then v == Refused(ZetaChallengeMismatch)
            else v.Accepted? || FirstFailure(h, proof, v)
    ensures v.Accepted? ==> betas == ReplayBetas(h, proof.layerRoots, FriState(h, pk, msg, proof.traceRoot))
  {
    hide Challenge, Challenges, StateAfter, QueryOk, QueryVerdict, Absorb, Climb;
    betas := [];
    if proof.traceRoot == ZeroDigest() { return Refused(NullMerkleRoot), betas; }
    if proof.finalPoly >= P { return Refused(InvalidFieldElement), betas; }
    if proof.queries == [] { return Refused(InvalidProofPayload), betas; }
    var ch := new Challenger(h);
    var alphas, zeta := OpenTranscript(ch, pk, msg, proof.traceRoot);
    var allZero := true;
    for i := 0 to |alphas|
      invariant allZero <==> forall k | 0 <= k < i :: alphas[k] == 0
    {
      allZero := allZero && alphas[i] == 0;
    }
    if allZero { return Refused(AlphaChallengeMismatch), betas; }
    if zeta == 0 { return Refused(ZetaChallengeMismatch), betas; }
    betas := Replay(ch, proof.layerRoots);
    for i := 0 to |proof.queries|
      invariant forall k | 0 <= k < i :: QueryOk(h, proof, proof.queries[k])
    {
      v := CheckQuery(h, proof, proof.queries[i]);
      if !v.Accepted? { return v, betas; }
    }
    return Accepted, betas;
  }

  /** The replay loop. */
  method Replay(ch: Challenger, roots: seq<Digest>) returns (betas: seq<Felt>)
    modifies ch
    ensures betas == ReplayBetas(ch.hash, roots, old(ch.absorbed))
  {
    hide Challenge, Absorb;
    var rounds := if |roots| == 0 then 0 else |roots| - 1;
    betas := [];
    ghost var start := ch.absorbed;
    assert roots[0..] == roots;
    for k := 0 to |roots|
      invariant if k < |roots| then ReplayBetas(ch.hash, roots, start)
                == betas + ReplayBetas(ch.hash, roots[k..], ch.absorbed)
                else ReplayBetas(ch.hash, roots, start) == betas
    {
      AbsorbIs(ch.absorbed, roots[k]);
      assert roots[k..][1..] == roots[k + 1..];
      ch.ObserveSlice(roots[k]);
      if k < rounds {
        var beta := ch.SampleExt();
        betas := betas + [beta];
      }
    }
  }

  /** The three checks of one query. */
  method CheckQuery(h: HashFunction, proof: StarkProof, q: Opening) returns (v: Verdict)
    ensures v == QueryVerdict(h, proof, q) && (v.Accepted? <==> QueryOk(h, proof, q))
  {
    hide Climb, Leaf, LayersOk, ShiftLeftOne;
    if q.traceEvals == [] || q.tracePath == [] { return Refused(FriColinearityCheckFailed); }
    ClimbModulo(h, Leaf(h, q.traceEvals), q.tracePath, q.index);
    var trace := VerifyMerkleProof(h, proof.traceRoot, Leaf(h, q.traceEvals), q.tracePath,
                                   q.index % ShiftLeftOne(|q.tracePath|));
    if !trace { return Refused(TraceMerkleDecommitmentFailed); }
    if proof.layerRoots != [] && q.quotientEvals != [] {
      var leaf := Leaf(h, [q.quotientEvals[0]]);
      ClimbModulo(h, leaf, q.quotientPath, q.index);
      var quotient := VerifyMerkleProof(h, proof.layerRoots[0], leaf, q.quotientPath,
                                        q.index % ShiftLeftOne(|q.quotientPath|));
      if !quotient { return Refused(QuotientMerkleDecommitmentFailed); }
    }
    v := CheckLayers(q, Rounds(proof));
  }
}
