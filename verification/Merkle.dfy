/**
 * Merkle trees of solomon-zk/src/merkle.rs over an arbitrary hash function: every generated path
 * verifies, and a full-height path verifies for another leaf only through a hash collision.
 */
module Merkle {
  import opened Basics
  import Congruence
  import opened Goldilocks

  type Digest = d: Bytes | |d| == 32 witness seq(32, _ => 0)

  type HashFunction = Bytes -> Digest

  function ZeroDigest(): (d: Digest)
    ensures forall i | 0 <= i < 32 :: d[i] == 0
  {
    seq(32, _ => 0)
  }

  // ----- trees

  /** Two digests in a row. */
  function Join(left: Digest, right: Digest): Bytes
  {
    var l: Bytes, r: Bytes := left, right;
    l + r
  }

  lemma JoinInjective(a: Digest, b: Digest, c: Digest, d: Digest)
    requires Join(a, b) == Join(c, d)
    ensures a == c && b == d
  {
    assert Join(a, b)[..32] == a && Join(a, b)[32..] == b;
    assert Join(c, d)[..32] == c && Join(c, d)[32..] == d;
  }

  function Parent(h: HashFunction, left: Digest, right: Digest): Digest
  {
    hide Join;
    h(Join(left, right))
  }

  function Parents(h: HashFunction, layer: seq<Digest>): (r: seq<Digest>)
    ensures |r| == |layer| / 2 && forall i | 0 <= i < |layer| / 2 :: r[i] == Parent(h, layer[2 * i], layer[2 * i + 1])
  {
    hide Parent;
    seq(|layer| / 2, i requires 0 <= i < |layer| / 2 => Parent(h, layer[2 * i], layer[2 * i + 1]))
  }

  /** All layers, the leaves first. */
  function Tree(h: HashFunction, layer: seq<Digest>): (r: seq<seq<Digest>>)
    ensures |r| > 0 && r[0] == layer
    decreases |layer|
  {
    hide Parents;
    if |layer| <= 1 then [layer] else [layer] + Tree(h, Parents(h, layer))
  }

  function TreeRoot(h: HashFunction, layer: seq<Digest>): Digest
    requires PowerOfTwo(|layer|)
    decreases |layer|
  {
    hide Parents;
    if |layer| == 1 then layer[0] else TreeRoot(h, Parents(h, layer))
  }

  /** The least power of two from p on that is at least n. */
  function NextPower(n: nat, p: nat): (r: nat)
    requires PowerOfTwo(p)
    ensures PowerOfTwo(r) && r >= n && r >= p && (r == p || r / 2 < n)
    decreases n - p
  {
    if p >= n then p
    else
      HalfOfDouble(p);
      NextPower(n, 2 * p)
  }

  function Padded(leaves: seq<Digest>): (r: seq<Digest>)
    ensures PowerOfTwo(|r|) && |r| >= |leaves| && (|r| == 1 || |r| / 2 < |leaves|)
    ensures forall i | 0 <= i < |r| :: r[i] == PadAt(leaves, i)
  {
    hide PowerOfTwo, PadAt;
    assert PowerOfTwo(1) by { OneIsPower(); }
    seq(NextPower(|leaves|, 1), i requires 0 <= i => PadAt(leaves, i))
  }

  /** The leaves, zero digests beyond. */
  function PadAt(leaves: seq<Digest>, i: nat): Digest
  {
    if i < |leaves| then leaves[i] else ZeroDigest()
  }

  lemma OneIsPower()
    ensures PowerOfTwo(1)
  {}

  /** build_merkle_tree_from_leaves. */
  method BuildMerkleTree(h: HashFunction, given: seq<Digest>) returns (root: Digest, layers: seq<seq<Digest>>)
    ensures given == [] ==> root == ZeroDigest() && layers == []
    ensures given != [] ==> root == TreeRoot(h, Padded(given)) && layers == Tree(h, Padded(given))
  {
    hide Padded, TreeRoot, Tree;
    if given == [] { return ZeroDigest(), []; }
    var leaves := PadLeaves(given);
    root, layers := HashUp(h, leaves);
  }

  /** The two padding loops. */
  method PadLeaves(given: seq<Digest>) returns (leaves: seq<Digest>)
    ensures leaves == Padded(given)
  {
    hide PowerOfTwo, PadAt;
    var nextPow2: nat := 1;
    assert PowerOfTwo(1) by { OneIsPower(); }
    while nextPow2 < |given|
      invariant PowerOfTwo(nextPow2) && NextPower(|given|, 1) == NextPower(|given|, nextPow2)
      decreases |given| - nextPow2
    {
      PowerAbove(|given|, nextPow2);
      nextPow2 := nextPow2 * 2;
    }
    PowerReached(|given|, nextPow2);
    leaves := given;
    forall i | 0 <= i < |given| ensures PadAt(given, i) == given[i] { PadWithin(given, i); }
    while |leaves| < nextPow2
      invariant |given| <= |leaves| <= nextPow2
      invariant forall i | 0 <= i < |leaves| :: leaves[i] == PadAt(given, i)
    {
      PadBeyond(given, |leaves|);
      leaves := leaves + [ZeroDigest()];
    }
  }

  lemma PadWithin(given: seq<Digest>, i: nat)
    requires i < |given|
    ensures PadAt(given, i) == given[i]
  {}

  lemma PadBeyond(given: seq<Digest>, i: nat)
    requires i >= |given|
    ensures PadAt(given, i) == ZeroDigest()
  {}

  /** The hashing loop: layer upon layer until one digest is left. */
  method HashUp(h: HashFunction, leaves: seq<Digest>) returns (root: Digest, layers: seq<seq<Digest>>)
    requires PowerOfTwo(|leaves|)
    ensures root == TreeRoot(h, leaves) && layers == Tree(h, leaves)
  {
    hide PowerOfTwo, Parents, Tree, TreeRoot;
    var below: seq<seq<Digest>> := [];
    var current := leaves;
    LeavesPresent(leaves);
    while |current| > 1
      invariant PowerOfTwo(|current|) && |current| > 0
      invariant TreeRoot(h, leaves) == TreeRoot(h, current) && Tree(h, leaves) == below + Tree(h, current)
      decreases |current|
    {
      var next := NextLayer(h, current);
      TreeStep(h, current);
      below := below + [current];
      current := next;
    }
    root := current[0];
    TreeTop(h, current);
    layers := below + [current];
  }

  lemma LeavesPresent(leaves: seq<Digest>)
    requires PowerOfTwo(|leaves|)
    ensures |leaves| > 0
  {}

  lemma PowerAbove(n: nat, p: nat)
    requires PowerOfTwo(p) && p < n
    ensures p > 0 && PowerOfTwo(p * 2) && NextPower(n, p) == NextPower(n, p * 2)
  {
    HalfOfDouble(p);
  }

  lemma PowerReached(n: nat, p: nat)
    requires PowerOfTwo(p) && p >= n
    ensures NextPower(n, p) == p
  {}

  lemma TreeStep(h: HashFunction, layer: seq<Digest>)
    requires PowerOfTwo(|layer|) && |layer| > 1
    ensures PowerOfTwo(|Parents(h, layer)|) && |Parents(h, layer)| > 0 && |layer| % 2 == 0
    ensures TreeRoot(h, layer) == TreeRoot(h, Parents(h, layer))
            && Tree(h, layer) == [layer] + Tree(h, Parents(h, layer))
  {}

  lemma TreeTop(h: HashFunction, layer: seq<Digest>)
    requires |layer| == 1
    ensures PowerOfTwo(|layer|) && TreeRoot(h, layer) == layer[0] && Tree(h, layer) == [layer]
  {}

  /** One layer from the one below, in chunks of two; an odd last chunk would be paired with zeros. */
  method NextLayer(h: HashFunction, current: seq<Digest>) returns (next: seq<Digest>)
    requires PowerOfTwo(|current|) && |current| > 1
    ensures next == Parents(h, current)
  {
    hide ZeroDigest;
    next := [];
    for i := 0 to |current| / 2
      invariant |next| == i && forall k | 0 <= k < i :: next[k] == Parent(h, current[2 * k], current[2 * k + 1])
    {
      next := next + [Parent(h, current[2 * i], current[2 * i + 1])];
    }
  }

  // ----- paths

  /** The sibling digests from leaf idx upwards. */
  function Path(layers: seq<seq<Digest>>, idx: nat): (r: seq<Digest>)
    decreases |layers|
  {
    if |layers| <= 1 then []
    else
      var sibling := if idx % 2 == 0 then idx + 1 else idx - 1;
      var rest := Path(layers[1..], idx / 2);
      if sibling < |layers[0]| then [layers[0][sibling]] + rest else rest
  }

  method GenerateMerkleProof(layers: seq<seq<Digest>>, index: nat) returns (proof: seq<Digest>)
    requires |layers| > 0
    ensures proof == Path(layers, index)
  {
    proof := [];
    var idx := index;
    assert layers[0..] == layers;
    for l := 0 to |layers| - 1
      invariant Path(layers, index) == proof + Path(layers[l..], idx)
    {
      var layer := layers[l];
      assert layers[l..][0] == layer && layers[l..][1..] == layers[l + 1..];
      var sibling := if idx % 2 == 0 then idx + 1 else idx - 1;
      if sibling < |layer| { proof := proof + [layer[sibling]]; }
      idx := idx / 2;
    }
  }

  /** The digest a leaf climbs to along a path. */
  function Climb(h: HashFunction, current: Digest, path: seq<Digest>, idx: nat): Digest
    decreases |path|
  {
    hide Parent;
    if path == [] then current
    else
      var up := if idx % 2 == 0 then Parent(h, current, path[0]) else Parent(h, path[0], current);
      Climb(h, up, path[1..], idx / 2)
  }

  method VerifyMerkleProof(h: HashFunction, root: Digest, leaf: Digest, proof: seq<Digest>, index: nat)
    returns (r: bool)
    ensures r <==> Climb(h, leaf, proof, index) == root
  {
    var current: Digest := leaf;
    var idx := index;
    assert proof[0..] == proof;
    for l := 0 to |proof|
      invariant Climb(h, leaf, proof, index) == Climb(h, current, proof[l..], idx)
    {
      assert proof[l..][1..] == proof[l + 1..];
      current := if idx % 2 == 0 then Parent(h, current, proof[l]) else Parent(h, proof[l], current);
      idx := idx / 2;
    }
    return current == root;
  }

  /** The path of one more layer. */
  lemma PathStep(h: HashFunction, layer: seq<Digest>, i: nat)
    requires PowerOfTwo(|layer|) && |layer| > 1 && i < |layer|
    ensures i / 2 < |layer| / 2 && Log2(|layer|) == 1 + Log2(|layer| / 2)
    ensures var sibling := if i % 2 == 0 then i + 1 else i - 1;
            sibling < |layer| && Path(Tree(h, layer), i) == [layer[sibling]] + Path(Tree(h, Parents(h, layer)), i / 2)
  {
    hide Parents;
    assert Tree(h, layer)[1..] == Tree(h, Parents(h, layer));
  }

  /** The parent a position climbs to. */
  function Up(h: HashFunction, current: Digest, sibling: Digest, idx: nat): Digest
  {
    if idx % 2 == 0 then Parent(h, current, sibling) else Parent(h, sibling, current)
  }

  lemma ClimbStep(h: HashFunction, current: Digest, sibling: Digest, rest: seq<Digest>, idx: nat)
    ensures Climb(h, current, [sibling] + rest, idx) == Climb(h, Up(h, current, sibling, idx), rest, idx / 2)
  {
    hide Parent;
    assert ([sibling] + rest)[1..] == rest;
  }

  lemma UpIsParent(h: HashFunction, layer: seq<Digest>, i: nat, sibling: nat)
    requires |layer| % 2 == 0 && i < |layer| && sibling < |layer| && sibling == if i % 2 == 0 then i + 1 else i - 1
    ensures i / 2 < |layer| / 2 && Up(h, layer[i], layer[sibling], i) == Parents(h, layer)[i / 2]
  {
    hide Parent;
  }

  /** Every leaf's path has full height and climbs to the root. */
  lemma {:induction false} PathVerifies(h: HashFunction, layer: seq<Digest>, i: nat)
    requires PowerOfTwo(|layer|) && i < |layer|
    ensures |Path(Tree(h, layer), i)| == Log2(|layer|)
    ensures Climb(h, layer[i], Path(Tree(h, layer), i), i) == TreeRoot(h, layer)
    decreases |layer|
  {
    if |layer| > 1 {
      hide Parents, Tree, Path, Climb, TreeRoot, Up, PowerOfTwo, Log2;
      TreeStep(h, layer);
      PathStep(h, layer, i);
      var sibling := if i % 2 == 0 then i + 1 else i - 1;
      UpIsParent(h, layer, i, sibling);
      PathVerifies(h, Parents(h, layer), i / 2);
      ClimbStep(h, layer[i], layer[sibling], Path(Tree(h, Parents(h, layer)), i / 2), i);
    }
  }

  /** If a pair climbs to the parent of position i, it is the pair stored there, or a collision. */
  lemma UpBinds(h: HashFunction, layer: seq<Digest>, i: nat, leaf: Digest, s: Digest, sibling: nat)
    returns (collision: bool, x: Bytes, y: Bytes)
    requires |layer| % 2 == 0 && i < |layer| && sibling < |layer| && sibling == if i % 2 == 0 then i + 1 else i - 1
    requires Up(h, leaf, s, i) == Up(h, layer[i], layer[sibling], i)
    ensures if collision then x != y && h(x) == h(y) else leaf == layer[i] && s == layer[sibling]
  {
    hide Join;
    if i % 2 == 0 {
      x, y := Join(leaf, s), Join(layer[i], layer[sibling]);
      collision := x != y;
      if x == y { JoinInjective(leaf, s, layer[i], layer[sibling]); }
    } else {
      x, y := Join(s, leaf), Join(layer[sibling], layer[i]);
      collision := x != y;
      if x == y { JoinInjective(s, leaf, layer[sibling], layer[i]); }
    }
  }

  /**
   * Binding: a full-height path that climbs from some leaf to the root is the generated path of
   * the leaf at that index, or two different strings with one hash are at hand.
   */
  lemma {:induction false} PathBinds(h: HashFunction, layer: seq<Digest>, i: nat, leaf: Digest, path: seq<Digest>)
    returns (collision: bool, x: Bytes, y: Bytes)
    requires PowerOfTwo(|layer|) && i < |layer| && |path| == Log2(|layer|)
    requires Climb(h, leaf, path, i) == TreeRoot(h, layer)
    ensures if collision then x != y && h(x) == h(y) else leaf == layer[i] && path == Path(Tree(h, layer), i)
    decreases |layer|
  {
    hide Parents, Tree, Path, Climb, TreeRoot, Up, PowerOfTwo, Log2;
    collision, x, y := false, [], [];
    if |layer| == 1 {
      SingleLeaf(h, layer, leaf, path);
    } else {
      OneUp(h, layer, i, leaf, path);
      collision, x, y := PathBinds(h, Parents(h, layer), i / 2, Up(h, leaf, path[0], i), path[1..]);
      if !collision { collision, x, y := BindsBelow(h, layer, i, leaf, path); }
    }
  }

  /** A tree of one leaf is its own root and has the empty path. */
  lemma SingleLeaf(h: HashFunction, layer: seq<Digest>, leaf: Digest, path: seq<Digest>)
    requires PowerOfTwo(|layer|) && |layer| == 1 && |path| == Log2(|layer|)
    requires Climb(h, leaf, path, 0) == TreeRoot(h, layer)
    ensures leaf == layer[0] && path == Path(Tree(h, layer), 0)
  {}

  /** A path that climbs to the root from a leaf climbs there from the leaf's parent. */
  lemma OneUp(h: HashFunction, layer: seq<Digest>, i: nat, leaf: Digest, path: seq<Digest>)
    requires PowerOfTwo(|layer|) && |layer| != 1 && i < |layer| && |path| == Log2(|layer|)
    requires Climb(h, leaf, path, i) == TreeRoot(h, layer)
    ensures |layer| > 1 && |path| > 0 && i / 2 < |Parents(h, layer)| < |layer|
    ensures PowerOfTwo(|Parents(h, layer)|) && |path[1..]| == Log2(|Parents(h, layer)|)
    ensures Climb(h, Up(h, leaf, path[0], i), path[1..], i / 2) == TreeRoot(h, Parents(h, layer))
  {
    hide Parents, Tree, Path, Climb, TreeRoot, Up, PowerOfTwo, Log2;
    LeavesPresent(layer);
    TreeStep(h, layer);
    PathStep(h, layer, i);
    assert path == [path[0]] + path[1..];
    ClimbStep(h, leaf, path[0], path[1..], i);
  }

  /** If the parent and the rest of the path are the stored ones, so are leaf and sibling, or they collide. */
  lemma BindsBelow(h: HashFunction, layer: seq<Digest>, i: nat, leaf: Digest, path: seq<Digest>)
    returns (collision: bool, x: Bytes, y: Bytes)
    requires PowerOfTwo(|layer|) && |layer| > 1 && i < |layer| && |path| > 0 && i / 2 < |Parents(h, layer)|
    requires Up(h, leaf, path[0], i) == Parents(h, layer)[i / 2]
    requires path[1..] == Path(Tree(h, Parents(h, layer)), i / 2)
    ensures if collision then x != y && h(x) == h(y) else leaf == layer[i] && path == Path(Tree(h, layer), i)
  {
    hide Parents, Tree, Path, Up, PowerOfTwo, Log2;
    TreeStep(h, layer);
    PathStep(h, layer, i);
    var sibling := if i % 2 == 0 then i + 1 else i - 1;
    UpIsParent(h, layer, i, sibling);
    collision, x, y := UpBinds(h, layer, i, leaf, path[0], sibling);
    assert path == [path[0]] + path[1..];
  }

  /** Only the lowest bits of an index matter: a path of length d is verified at index mod 2^d. */
  lemma {:induction false} ClimbModulo(h: HashFunction, current: Digest, path: seq<Digest>, idx: nat)
    ensures ShiftLeftOne(|path|) > 0
    ensures Climb(h, current, path, idx % ShiftLeftOne(|path|)) == Climb(h, current, path, idx)
    decreases |path|
  {
    hide Parent;
    if path != [] {
      var m := ShiftLeftOne(|path| - 1);
      var up := if idx % 2 == 0 then Parent(h, current, path[0]) else Parent(h, path[0], current);
      ClimbModulo(h, up, path[1..], idx / 2);
      HalfOfRemainder(idx, m);
    }
  }

  lemma HalfOfRemainder(idx: nat, m: nat)
    requires m > 0
    ensures (idx % (2 * m)) % 2 == idx % 2 && (idx % (2 * m)) / 2 == (idx / 2) % m
  {
    var q, r := idx / (2 * m), idx % (2 * m);
    assert idx == q * (2 * m) + r;
    assert q * (2 * m) == 2 * (q * m);
    assert idx / 2 == q * m + r / 2;
    Congruence.DivModUnique(idx / 2, q, r / 2, m);
  }

  lemma {:induction false} DepthOfPower(n: nat)
    requires PowerOfTwo(n)
    ensures ShiftLeftOne(Log2(n)) == n
  {
    if n > 1 { DepthOfPower(n / 2); }
  }
}
