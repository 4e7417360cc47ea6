/**
 * Honest proofs are accepted: the replayed challenges are the prover's, and every opened trace and
 * quotient path verifies; where a query falls on a padding row, it verifies only by accident.
 */
module StarkCompleteness {
  import opened Basics
  import opened Goldilocks
  import opened FriFolding
  import opened Merkle
  import opened Transcript
  import opened Stark

  /** A path generated at index mod 2^depth verifies at the index itself. */
  lemma OpenedPathVerifies(h: HashFunction, leaves: seq<Digest>, index: nat)
    requires PowerOfTwo(|leaves|)
    ensures |leaves| > 0
    ensures var path := Path(Tree(h, leaves), index % |leaves|);
            |path| == Log2(|leaves|) && Climb(h, leaves[index % |leaves|], path, index) == TreeRoot(h, leaves)
  {
    hide PowerOfTwo, Tree, TreeRoot, Path, Climb, Log2, ShiftLeftOne;
    LeavesPresent(leaves);
    var idx := index % |leaves|;
    PathVerifies(h, leaves, idx);
    DepthOfPower(|leaves|);
    ClimbModulo(h, leaves[idx], Path(Tree(h, leaves), idx), index);
  }

  /** Two powers of two with n <= r < 2n are equal. */
  lemma NoPowerBetween(r: nat, n: nat)
    requires PowerOfTwo(r) && PowerOfTwo(n) && n <= r && (r == 1 || r / 2 < n)
    ensures r == n
  {
    hide PowerOfTwo;
    PowerOfTwoDivides(n, r);
    var q := ExactlyDivides(r, n);
    QuotientOne(r, n, q);
  }

  lemma ExactlyDivides(r: nat, n: nat) returns (q: nat)
    requires n > 0 && r % n == 0
    ensures r == q * n
  {
    q := r / n;
  }

  lemma QuotientOne(r: nat, n: nat, q: nat)
    requires n > 0 && r == q * n && n <= r && r < 2 * n
    ensures r == n
  {
    assert q >= 2 ==> q * n >= 2 * n;
    assert q <= 0 ==> q * n <= 0;
  }

  lemma PaddedIsWhole(leaves: seq<Digest>)
    requires PowerOfTwo(|leaves|)
    ensures Padded(leaves) == leaves
  {
    hide PowerOfTwo;
    LeavesPresent(leaves);
    NoPowerBetween(|Padded(leaves)|, |leaves|);
  }

  // ----- the three checks of a query

  /** The position of a query in the padded trace. */
  function TracePosition(h: HashFunction, matrix: seq<Words>, index: nat): nat
  {
    hide PowerOfTwo;
    LeavesPresent(Padded(Leaves(h, matrix)));
    index % |Padded(Leaves(h, matrix))|
  }

  ghost predicate RowsPresent(matrix: seq<Words>)
  {
    |matrix| > 1 && forall i | 0 <= i < |matrix| :: matrix[i] != []
  }

  /** At an actual row the trace check succeeds; at a padding row it compares the leaf with zero. */
  lemma TraceOpening(h: HashFunction, matrix: seq<Words>, index: nat)
    requires RowsPresent(matrix)
    ensures var leaves := Padded(Leaves(h, matrix));
            var idx := TracePosition(h, matrix, index);
            && |leaves| > 1 && idx < |leaves|
            && Path(Tree(h, leaves), idx) != [] && SentRow(matrix, idx) != []
            && |Path(Tree(h, leaves), idx)| == Log2(|leaves|)
            && leaves[idx] == (if idx < |matrix| then Leaf(h, matrix[idx]) else ZeroDigest())
            && Climb(h, leaves[idx], Path(Tree(h, leaves), idx), index) == TreeRoot(h, leaves)
  {
    hide PowerOfTwo, Tree, TreeRoot, Path, Climb, Leaf;
    var leaves := Padded(Leaves(h, matrix));
    OpenedPathVerifies(h, leaves, index);
  }

  lemma QuotientOpening(h: HashFunction, evals: seq<Felt>, index: nat)
    requires index < |evals|
    ensures PathOk(h, EvalRoot(h, evals), [evals[index]], Path(TreeOf(h, evals), index), index)
  {
    hide PowerOfTwo, Tree, TreeRoot, Path, Climb, Leaf;
    var leaves := Padded(EvalLeaves(h, evals));
    PathVerifies(h, leaves, index);
    assert leaves[index] == Leaf(h, [evals[index]]);
  }

  /** A tree has one level more than its depth. */
  lemma {:induction false} TreeLevels(h: HashFunction, layer: seq<Digest>)
    requires PowerOfTwo(|layer|)
    ensures |Tree(h, layer)| == Log2(|layer|) + 1 <= |layer|
    decreases |layer|
  {
    if |layer| > 1 {
      TreeStep(h, layer);
      TreeLevels(h, Parents(h, layer));
    }
  }

  /** The path stored for a layer of at least two elements is not empty, whatever position it is for. */
  lemma LayerPathPresent(h: HashFunction, evals: seq<Felt>, query: nat, l: nat)
    requires |evals| > 1
    ensures LayerPath(TreeOf(h, evals), query, l) != []
  {
    hide PowerOfTwo, Tree, Path, ShiftLeftOne;
    var leaves := Padded(EvalLeaves(h, evals));
    TreeLevels(h, leaves);
    PathVerifies(h, leaves, StoredPosition(TreeOf(h, evals), query, l));
  }

  /** Up to 2^31 evaluations there are at most 32 layers. */
  lemma LayerCount(n: nat)
    requires Length(n) && n < TWO_32
    ensures Log2(n) <= 31
  {
    hide Log2, ShiftLeftOne, PowerOfTwo;
    DepthOfPower(n);
    if Log2(n) >= 32 {
      ShiftMonotone(32, Log2(n));
      ShiftTo32();
    }
  }

  lemma LayerChecks(h: HashFunction, evals: seq<Felt>, state: Bytes, query: nat, q: Opening)
    requires Length(|evals|) && 1 < |evals| < TWO_32 && q.quotientEvals != []
    requires var layers := Layers(h, evals, state); q.friPaths == LayerPaths(Trees(h, layers), query)
    ensures var layers := Layers(h, evals, state); LayersOk(q, |layers| - 1)
  {
    hide PowerOfTwo, Layers, TreeOf, LayerPath, Fold, Roots, ReplayBetas, FoldRounds;
    var layers := Layers(h, evals, state);
    ReplayFollowsProver(h, evals, state);
    LayerCount(|evals|);
    forall t | 1 <= t <= |layers| - 1 && t < |q.friPaths| - 1
      ensures q.friPaths[t] != []
    {
      LayerFolds(h, evals, state, t);
      LayerPathPresent(h, layers[t], query, t);
    }
  }

  // ----- the theorem

  /** Every query falls on an actual trace row. */
  ghost predicate QueriesOnRows(h: HashFunction, matrix: seq<Words>, proof: StarkProof)
  {
    forall i | 0 <= i < |proof.queries| :: TracePosition(h, matrix, proof.queries[i].index) < |matrix|
  }

  lemma QueryAccepted(h: HashFunction, pk: Bytes, msg: Bytes, matrix: seq<Words>, quotient: Evaluator,
                      proof: StarkProof, i: nat)
    requires Provable(h, pk, msg, matrix, quotient) && IsProof(h, pk, msg, matrix, quotient, proof)
    requires RowsPresent(matrix) && |Evals(h, pk, msg, matrix, quotient)| < TWO_32
    requires i < NUM_FRI_QUERIES && TracePosition(h, matrix, proof.queries[i].index) < |matrix|
    ensures QueryOk(h, proof, proof.queries[i])
  {
    hide PowerOfTwo, Tree, TreeRoot, Path, Climb, Leaf, Padded, TreeOf, LayerPaths, Layers, EvalRoot, FriState,
         LayersOk,
         Evals, TraceOk, QuotientOk, OpensLayers, Position, QueryState, Leaves, TracePosition, RowsPresent, SentRow;
    var evals := Evals(h, pk, msg, matrix, quotient);
    var q := proof.queries[i];
    var state := FriState(h, pk, msg, proof.traceRoot);
    OpeningParts(h, matrix, evals, Layers(h, evals, state), q);
    TraceAccepted(h, matrix, proof, q);
    QuotientOpening(h, evals, q.index);
    QuotientAccepted(h, evals, proof, q);
    LayerChecks(h, evals, state, q.index, q);
  }

  /** The parts of an honest opening. */
  lemma OpeningParts(h: HashFunction, matrix: seq<Words>, evals: seq<Felt>, layers: seq<seq<Felt>>, q: Opening)
    requires matrix != [] && |layers| > 0 && layers[0] == evals
    requires |Padded(Leaves(h, matrix))| > 0
    requires OpensLayers(h, matrix, Tree(h, Padded(Leaves(h, matrix))), evals, layers, q)
    ensures q.index < |evals| && q.quotientEvals == [evals[q.index]]
    ensures q.quotientPath == Path(TreeOf(h, evals), q.index) && q.friPaths == LayerPaths(Trees(h, layers), q.index)
    ensures var idx := TracePosition(h, matrix, q.index);
            q.traceEvals == SentRow(matrix, idx) && q.tracePath == Path(Tree(h, Padded(Leaves(h, matrix))), idx)
  {
    hide PowerOfTwo, Tree, Path, Padded, TreeOf, LayerPaths, SentRow;
  }

  lemma TraceAccepted(h: HashFunction, matrix: seq<Words>, proof: StarkProof, q: Opening)
    requires RowsPresent(matrix) && proof.traceRoot == TraceRoot(h, matrix)
    requires var idx := TracePosition(h, matrix, q.index);
             && idx < |matrix| && q.traceEvals == SentRow(matrix, idx)
             && q.tracePath == Path(Tree(h, Padded(Leaves(h, matrix))), idx)
    ensures TraceOk(h, proof, q)
  {
    hide PowerOfTwo, Tree, TreeRoot, Path, Climb, Leaf, Padded, TracePosition;
    TraceOpening(h, matrix, q.index);
  }

  lemma QuotientAccepted(h: HashFunction, evals: seq<Felt>, proof: StarkProof, q: Opening)
    requires q.index < |evals| && q.quotientEvals == [evals[q.index]]
             && q.quotientPath == Path(TreeOf(h, evals), q.index)
    requires proof.layerRoots != [] && proof.layerRoots[0] == EvalRoot(h, evals)
    requires PathOk(h, EvalRoot(h, evals), [evals[q.index]], Path(TreeOf(h, evals), q.index), q.index)
    ensures QuotientOk(h, proof, q)
  {
    hide PathOk;
  }

  /**
   * An honest proof is accepted when the challenges are not degenerate, the domain is below 2^32,
   * and every query falls on an actual row of the trace.
   */
  lemma HonestAccepted(h: HashFunction, pk: Bytes, msg: Bytes, matrix: seq<Words>, quotient: Evaluator,
                       proof: StarkProof)
    requires Provable(h, pk, msg, matrix, quotient) && IsProof(h, pk, msg, matrix, quotient, proof)
    requires RowsPresent(matrix) && |Evals(h, pk, msg, matrix, quotient)| < TWO_32
    requires Nondegenerate(h, pk, msg, TraceRoot(h, matrix)) && QueriesOnRows(h, matrix, proof)
    ensures Accepts(h, proof, pk, msg)
  {
    hide QueryOk, TraceRoot, Nondegenerate, Evals, Layers, Roots, OpensLayers, TracePosition, RowsPresent, Tree,
         Padded, Leaves, FriState;
    forall i | 0 <= i < |proof.queries|
      ensures QueryOk(h, proof, proof.queries[i])
    {
      QueryAccepted(h, pk, msg, matrix, quotient, proof, i);
    }
    FinalIsElement(h, pk, msg, matrix, quotient, proof);
  }

  lemma FinalIsElement(h: HashFunction, pk: Bytes, msg: Bytes, matrix: seq<Words>, quotient: Evaluator,
                       proof: StarkProof)
    requires Provable(h, pk, msg, matrix, quotient) && IsProof(h, pk, msg, matrix, quotient, proof)
    ensures proof.finalPoly < P
  {
    hide Evals, Layers, Roots, OpensLayers, Tree, Padded, Leaves, FriState, TraceRoot;
    var layers := Layers(h, Evals(h, pk, msg, matrix, quotient), FriState(h, pk, msg, proof.traceRoot));
    var last: Felt := layers[|layers| - 1][0];
    assert proof.finalPoly == last;
  }

  /** A trace with a power of two of rows, which is what the trace builder always hands over, has no padding rows. */
  lemma WholeTraceAccepted(h: HashFunction, pk: Bytes, msg: Bytes, matrix: seq<Words>, quotient: Evaluator,
                           proof: StarkProof)
    requires Provable(h, pk, msg, matrix, quotient) && IsProof(h, pk, msg, matrix, quotient, proof)
    requires RowsPresent(matrix) && PowerOfTwo(|matrix|) && |Evals(h, pk, msg, matrix, quotient)| < TWO_32
    requires Nondegenerate(h, pk, msg, TraceRoot(h, matrix))
    ensures Accepts(h, proof, pk, msg)
  {
    hide Accepts, IsProof, Provable, Nondegenerate, Evals, PowerOfTwo, Padded;
    PaddedIsWhole(Leaves(h, matrix));
    assert QueriesOnRows(h, matrix, proof);
    HonestAccepted(h, pk, msg, matrix, quotient, proof);
  }

  /**
   * At a padding row the opening sends a row of zeros but the tree holds the zero digest: if that
   * query is accepted, the hash of the zero row is the zero digest, or a collision is at hand.
   */
  lemma PaddingRowRefused(h: HashFunction, pk: Bytes, msg: Bytes, matrix: seq<Words>, quotient: Evaluator,
                          proof: StarkProof, i: nat)
    returns (collision: bool, x: Bytes, y: Bytes)
    requires Provable(h, pk, msg, matrix, quotient) && IsProof(h, pk, msg, matrix, quotient, proof)
             && RowsPresent(matrix)
    requires i < NUM_FRI_QUERIES && TracePosition(h, matrix, proof.queries[i].index) >= |matrix|
    requires TraceOk(h, proof, proof.queries[i])
    ensures if collision then x != y && h(x) == h(y) else Leaf(h, ZeroRow(|matrix[0]|)) == ZeroDigest()
  {
    hide PowerOfTwo, Tree, TreeRoot, Path, Climb, Leaf, TreeOf, LayerPaths, Layers, EvalRoot, FriState, Evals, Log2,
         ShiftLeftOne;
    var evals := Evals(h, pk, msg, matrix, quotient);
    var q := proof.queries[i];
    var leaves := Padded(Leaves(h, matrix));
    var layers := Layers(h, evals, FriState(h, pk, msg, proof.traceRoot));
    assert OpensLayers(h, matrix, Tree(h, leaves), evals, layers, q);
    TraceOpening(h, matrix, q.index);
    var idx := TracePosition(h, matrix, q.index);
    var leaf := Leaf(h, SentRow(matrix, idx));
    DepthOfPower(|leaves|);
    ClimbModulo(h, leaf, q.tracePath, q.index);
    collision, x, y := PathBinds(h, leaves, idx, leaf, q.tracePath);
  }

  /** The converse: such a hash makes the padding row acceptable. */
  lemma PaddingRowAccepted(h: HashFunction, pk: Bytes, msg: Bytes, matrix: seq<Words>, quotient: Evaluator,
                           proof: StarkProof, i: nat)
    requires Provable(h, pk, msg, matrix, quotient) && IsProof(h, pk, msg, matrix, quotient, proof)
             && RowsPresent(matrix)
    requires i < NUM_FRI_QUERIES && TracePosition(h, matrix, proof.queries[i].index) >= |matrix|
    requires Leaf(h, ZeroRow(|matrix[0]|)) == ZeroDigest()
    ensures TraceOk(h, proof, proof.queries[i])
  {
    hide PowerOfTwo, Tree, TreeRoot, Path, Climb, Leaf, TreeOf, LayerPaths, Layers, EvalRoot, FriState, Evals;
    var q := proof.queries[i];
    var layers := Layers(h, Evals(h, pk, msg, matrix, quotient), FriState(h, pk, msg, proof.traceRoot));
    assert OpensLayers(h, matrix, Tree(h, Padded(Leaves(h, matrix))), Evals(h, pk, msg, matrix, quotient), layers, q);
    TraceOpening(h, matrix, q.index);
  }

  // ----- exactly which honest proofs are accepted

  /** 2^32 evaluations make 33 layers. */
  lemma LargestLayerCount(n: nat)
    requires Length(n) && n == TWO_32
    ensures Log2(n) >= 32
  {
    hide Log2, ShiftLeftOne, PowerOfTwo;
    DepthOfPower(n);
    if Log2(n) < 32 {
      ShiftMonotone(Log2(n), 31);
      ShiftTo31();
    }
  }

  lemma ShiftTo31()
    ensures ShiftLeftOne(31) < TWO_32
  {
    ShiftTo32();
  }

  /** With 2^32 evaluations the verifier asks for a root of unity of order 2^33, which does not exist. */
  lemma LargestDomainRefused(h: HashFunction, pk: Bytes, msg: Bytes, matrix: seq<Words>, quotient: Evaluator,
                             proof: StarkProof)
    requires Provable(h, pk, msg, matrix, quotient) && IsProof(h, pk, msg, matrix, quotient, proof)
    requires |Evals(h, pk, msg, matrix, quotient)| == TWO_32
    ensures !Accepts(h, proof, pk, msg)
  {
    hide PowerOfTwo, Tree, Padded, TreeOf, LayerPath, Layers, EvalRoot, FriState, Evals, Position, QueryState, TraceOk,
         QuotientOk, Nondegenerate, Path, SentRow, ReplayBetas, FoldRounds;
    var evals := Evals(h, pk, msg, matrix, quotient);
    var state := FriState(h, pk, msg, proof.traceRoot);
    var layers := Layers(h, evals, state);
    var q := proof.queries[0];
    assert OpensLayers(h, matrix, Tree(h, Padded(Leaves(h, matrix))), evals, layers, q);
    ReplayFollowsProver(h, evals, state);
    LargestLayerCount(|evals|);
    assert !LayersOk(q, Rounds(proof));
    assert !QueryOk(h, proof, proof.queries[0]);
  }

  /**
   * The verdict on an honest proof, unless the hash maps the zero row to zero or a collision is at
   * hand: it is accepted if and only if the challenges are not degenerate, there are fewer than
   * 2^32 evaluations, and every query falls on an actual row of the trace.
   */
  lemma HonestVerdict(h: HashFunction, pk: Bytes, msg: Bytes, matrix: seq<Words>, quotient: Evaluator,
                      proof: StarkProof)
    returns (collision: bool, x: Bytes, y: Bytes)
    requires Provable(h, pk, msg, matrix, quotient) && IsProof(h, pk, msg, matrix, quotient, proof)
    requires RowsPresent(matrix) && Leaf(h, ZeroRow(|matrix[0]|)) != ZeroDigest()
    ensures if collision then x != y && h(x) == h(y)
            else Accepts(h, proof, pk, msg)
                 <==> && Nondegenerate(h, pk, msg, TraceRoot(h, matrix))
                      && |Evals(h, pk, msg, matrix, quotient)| < TWO_32 && QueriesOnRows(h, matrix, proof)
  {
    hide TraceRoot, Nondegenerate, Evals, Leaf, TracePosition, RowsPresent, OpensLayers, Layers, Roots, Tree, Padded,
         Leaves,
         FriState, QueryState, Position, PowerOfTwo, QuotientOk, LayersOk, TraceOk;
    collision, x, y := false, [], [];
    if Nondegenerate(h, pk, msg, TraceRoot(h, matrix)) && |Evals(h, pk, msg, matrix, quotient)| < TWO_32
       && QueriesOnRows(h, matrix, proof) {
      HonestAccepted(h, pk, msg, matrix, quotient, proof);
    } else if Accepts(h, proof, pk, msg) {
      if |Evals(h, pk, msg, matrix, quotient)| == TWO_32 {
        LargestDomainRefused(h, pk, msg, matrix, quotient, proof);
      }
      var i := OffRow(h, matrix, proof);
      assert QueryOk(h, proof, proof.queries[i]);
      collision, x, y := PaddingRowRefused(h, pk, msg, matrix, quotient, proof, i);
    }
  }

  lemma OffRow(h: HashFunction, matrix: seq<Words>, proof: StarkProof) returns (i: nat)
    requires !QueriesOnRows(h, matrix, proof)
    ensures i < |proof.queries| && TracePosition(h, matrix, proof.queries[i].index) >= |matrix|
  {
    i :| i < |proof.queries| && TracePosition(h, matrix, proof.queries[i].index) >= |matrix|;
  }

  // ----- the paths stored for the layers

  /**
   * The stored path verifies the element at the query's position if and only if it happens to be
   * the path of that position, or a collision is at hand.
   */
  lemma LayerPathExact(h: HashFunction, evals: seq<Felt>, query: nat, l: nat)
    returns (collision: bool, x: Bytes, y: Bytes)
    requires PowerOfTwo(|evals|) && |evals| > 0
    ensures var p := query % |evals|; var tree := TreeOf(h, evals);
            if collision then x != y && h(x) == h(y)
            else PathOk(h, EvalRoot(h, evals), [evals[p]], LayerPath(tree, query, l), p)
                 <==> Path(tree, StoredPosition(tree, query, l)) == Path(tree, p)
  {
    hide PowerOfTwo, Tree, TreeRoot, Path, Climb, Leaf, Log2, ShiftLeftOne;
    var p, tree := query % |evals|, TreeOf(h, evals);
    var leaves := EvalLeaves(h, evals);
    PaddedIsWhole(leaves);
    TreeLevels(h, leaves);
    var i := StoredPosition(tree, query, l);
    PathVerifies(h, leaves, i);
    PathVerifies(h, leaves, p);
    assert leaves[p] == Leaf(h, [evals[p]]);
    collision, x, y := false, [], [];
    if PathOk(h, EvalRoot(h, evals), [evals[p]], LayerPath(tree, query, l), p) {
      collision, x, y := PathBinds(h, leaves, p, leaves[p], Path(tree, i));
    }
  }

  /** Different elements have different leaves, or their bytes collide. */
  lemma LeavesBind(h: HashFunction, v: U64, w: U64) returns (collision: bool, x: Bytes, y: Bytes)
    requires v != w
    ensures if collision then x != y && h(x) == h(y) else Leaf(h, [v]) != Leaf(h, [w])
  {
    hide Le64, FromLe64;
    Le64RoundTrip(v);
    Le64RoundTrip(w);
    x, y := RowBytes([v]), RowBytes([w]);
    SingleRow(v);
    SingleRow(w);
    collision := h(x) == h(y);
  }

  lemma SingleRow(v: U64)
    ensures RowBytes([v]) == Le64(v)
  {
    hide Le64;
    assert [v][1..] == [];
  }

  ghost predicate Distinct(evals: seq<Felt>)
  {
    forall a, b | 0 <= a < b < |evals| :: evals[a] != evals[b]
  }

  /** Paths of different positions differ in their first sibling. */
  lemma PathsDiffer(h: HashFunction, leaves: seq<Digest>, i: nat, p: nat)
    requires PowerOfTwo(|leaves|) && i < |leaves| && p < |leaves| && i != p && |leaves| > 1
    requires var s := if i % 2 == 0 then i + 1 else i - 1; var t := if p % 2 == 0 then p + 1 else p - 1;
             s < |leaves| && t < |leaves| && leaves[s] != leaves[t]
    ensures Path(Tree(h, leaves), i) != Path(Tree(h, leaves), p)
  {
    hide PowerOfTwo, Tree, Path, Log2;
    PathStep(h, leaves, i);
    PathStep(h, leaves, p);
    assert Path(Tree(h, leaves), i)[0] != Path(Tree(h, leaves), p)[0];
  }

  /**
   * For pairwise different evaluations the stored path verifies the queried element if and only if
   * the position it is stored for is the queried one, or a collision is at hand.
   */
  lemma LayerPathByPosition(h: HashFunction, evals: seq<Felt>, query: nat, l: nat)
    returns (collision: bool, x: Bytes, y: Bytes)
    requires PowerOfTwo(|evals|) && |evals| > 0 && Distinct(evals)
    ensures var p := query % |evals|; var tree := TreeOf(h, evals);
            if collision then x != y && h(x) == h(y)
            else PathOk(h, EvalRoot(h, evals), [evals[p]], LayerPath(tree, query, l), p)
                 <==> StoredPosition(tree, query, l) == p
  {
    hide PowerOfTwo, Tree, TreeRoot, Path, Leaf, Log2, ShiftLeftOne, PathOk, Padded, StoredPosition, Distinct, Leaves;
    var p, tree := query % |evals|, TreeOf(h, evals);
    PaddedIsWhole(EvalLeaves(h, evals));
    StoredBelow(h, EvalLeaves(h, evals), query, l);
    var i := StoredPosition(tree, query, l);
    collision, x, y := LayerPathExact(h, evals, query, l);
    if !collision && i != p { collision, x, y := PositionsSeparate(h, evals, i, p); }
  }

  /** Different positions have different paths, or a collision is at hand. */
  lemma PositionsSeparate(h: HashFunction, evals: seq<Felt>, i: nat, p: nat)
    returns (collision: bool, x: Bytes, y: Bytes)
    requires PowerOfTwo(|evals|) && Distinct(evals) && i < |evals| && p < |evals| && i != p
    ensures if collision then x != y && h(x) == h(y)
            else Path(Tree(h, EvalLeaves(h, evals)), i) != Path(Tree(h, EvalLeaves(h, evals)), p)
  {
    hide PowerOfTwo, Tree, Path, Leaf, Log2;
    var leaves := EvalLeaves(h, evals);
    PathStep(h, leaves, i);
    PathStep(h, leaves, p);
    var s, t := if i % 2 == 0 then i + 1 else i - 1, if p % 2 == 0 then p + 1 else p - 1;
    assert s != t && evals[s] != evals[t];
    collision, x, y := LeavesBind(h, evals[s], evals[t]);
    assert leaves[s] == Leaf(h, [evals[s]]) && leaves[t] == Leaf(h, [evals[t]]);
    if !collision { PathsDiffer(h, leaves, i, p); }
  }

  /** The stored position is one of the tree's. */
  lemma StoredBelow(h: HashFunction, leaves: seq<Digest>, query: nat, l: nat)
    requires PowerOfTwo(|leaves|)
    ensures StoredPosition(Tree(h, leaves), query, l) < |leaves|
  {
    hide PowerOfTwo, Tree, Log2, ShiftLeftOne;
    TreeLevels(h, leaves);
  }

  // ----- a query whose stored path fails

  /** A hash that keeps the first 32 bytes: the parent of two digests is the left one. */
  function Prefix(b: Bytes): Digest
  {
    seq(32, i requires 0 <= i < 32 => if i < |b| then b[i] else 0)
  }

  lemma PrefixParent(a: Digest, b: Digest)
    ensures Parent(Prefix, a, b) == a
  {
    var j := Join(a, b);
    assert Prefix(j) == a;
  }

  /** Eight evaluations, all zero but the fifth. */
  function Spike(): (r: seq<Felt>)
    ensures |r| == 8
  {
    [0, 0, 0, 0, 1, 0, 0, 0]
  }

  function Left(layer: seq<Digest>): (r: seq<Digest>)
    ensures |r| == |layer| / 2 && forall i | 0 <= i < |r| :: r[i] == layer[2 * i]
  {
    seq(|layer| / 2, i requires 0 <= i < |layer| / 2 => layer[2 * i])
  }

  lemma PrefixParents(layer: seq<Digest>)
    ensures Parents(Prefix, layer) == Left(layer)
  {
    hide Parent;
    forall i | 0 <= i < |layer| / 2 ensures Parents(Prefix, layer)[i] == layer[2 * i] {
      PrefixParent(layer[2 * i], layer[2 * i + 1]);
    }
  }

  /** The tree of eight leaves under that hash, and the two paths in question. */
  lemma PrefixTree(d: seq<Digest>)
    requires |d| == 8
    ensures Tree(Prefix, d) == [d, [d[0], d[2], d[4], d[6]], [d[0], d[4]], [d[0]]]
    ensures Path(Tree(Prefix, d), 0) == [d[1], d[2], d[4]] && Path(Tree(Prefix, d), 4) == [d[5], d[6], d[0]]
    ensures PowerOfTwo(|d|) && TreeRoot(Prefix, d) == d[0]
  {
    hide Parents, Left;
    var d1, d2, d3 := [d[0], d[2], d[4], d[6]], [d[0], d[4]], [d[0]];
    PrefixParents(d);
    PrefixParents(d1);
    PrefixParents(d2);
    assert Left(d) == d1 && Left(d1) == d2 && Left(d2) == d3;
    assert Tree(Prefix, d3) == [d3];
    assert Tree(Prefix, d2) == [d2, d3];
    assert Tree(Prefix, d1) == [d1, d2, d3];
    PathOfFour(d, d1, d2, d3);
    assert TreeRoot(Prefix, d2) == TreeRoot(Prefix, d3) == d[0];
    assert TreeRoot(Prefix, d1) == TreeRoot(Prefix, d2);
  }

  lemma PathOfFour(d: seq<Digest>, d1: seq<Digest>, d2: seq<Digest>, d3: seq<Digest>)
    requires |d| == 8 && |d1| == 4 && |d2| == 2
    ensures Path([d, d1, d2, d3], 0) == [d[1], d1[1], d2[1]] && Path([d, d1, d2, d3], 4) == [d[5], d1[3], d2[0]]
  {
    var t, t1, t2 := [d, d1, d2, d3], [d1, d2, d3], [d2, d3];
    assert t[1..] == t1 && t1[1..] == t2 && t2[1..] == [d3];
    assert Path(t2, 0) == [d2[1]] && Path(t2, 1) == [d2[0]];
    assert Path(t1, 0) == [d1[1]] + Path(t2, 0) && Path(t1, 2) == [d1[3]] + Path(t2, 1);
    assert Path(t, 0) == [d[1]] + Path(t1, 0) && Path(t, 4) == [d[5]] + Path(t1, 2);
  }

  lemma PrefixClimb(leaf: Digest, a: Digest, b: Digest, c: Digest)
    ensures Climb(Prefix, leaf, [a, b, c], 4) == c
  {
    hide Parent;
    PrefixParent(leaf, a);
    PrefixParent(leaf, b);
    PrefixParent(c, leaf);
    assert [a, b, c][1..] == [b, c] && [b, c][1..] == [c] && [c][1..] == [];
    assert Climb(Prefix, leaf, [c], 1) == c;
    assert Climb(Prefix, leaf, [b, c], 2) == c;
  }

  /** Query 4 of the spike: its own path verifies, the stored one, that of position 0, does not. */
  lemma StoredPathFails()
    ensures var tree := TreeOf(Prefix, Spike());
            && StoredPosition(tree, 4, 0) == 0
            && PathOk(Prefix, EvalRoot(Prefix, Spike()), [Spike()[4]], Path(tree, 4), 4)
            && !PathOk(Prefix, EvalRoot(Prefix, Spike()), [Spike()[4]], LayerPath(tree, 4, 0), 4)
  {
    hide Path, Climb, Leaf, Tree, TreeRoot;
    var d := EvalLeaves(Prefix, Spike());
    PrefixTree(d);
    PaddedIsWhole(d);
    assert d[4] == Leaf(Prefix, [1]) && d[0] == Leaf(Prefix, [0]);
    LeavesDiffer();
    PrefixClimb(d[4], d[5], d[6], d[0]);
    PrefixClimb(d[4], d[1], d[2], d[4]);
  }

  lemma LeavesDiffer()
    ensures Leaf(Prefix, [0]) != Leaf(Prefix, [1])
  {
    SingleRow(0);
    SingleRow(1);
    assert Leaf(Prefix, [0])[0] == 0 && Leaf(Prefix, [1])[0] == 1;
  }
}
