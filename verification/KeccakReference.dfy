/**
 * The sponge of solomon-core/src/crypto/shake.rs against FIPS 202, Algorithm 8: which bytes of the
 * state each block is xored into, block after block, without lanes or words.
 */
module KeccakReference {
  import Congruence
  import opened KeccakLanes
  import opened KeccakSponge

  // ----- lanes are little-endian

  /** The first byte is the lowest: every further one counts 256 times as much. */
  lemma LowestFirst(b0: bv8, b1: bv8, b2: bv8, b3: bv8, b4: bv8, b5: bv8, b6: bv8, b7: bv8)
    ensures Word(b0, b1, b2, b3, b4, b5, b6, b7) == (b0 as bv64) + 256 * Word(b1, b2, b3, b4, b5, b6, b7, 0)
  {}

  /** A lane is made of its bytes. */
  lemma LaneOfBytes(l: bv64)
    ensures l == Word(LaneByte(l, 0), LaneByte(l, 1), LaneByte(l, 2), LaneByte(l, 3), LaneByte(l, 4), LaneByte(l, 5),
                      LaneByte(l, 6), LaneByte(l, 7))
  {}

  /** A state is made of its 200 bytes. */
  lemma StateOfBytes(a: Lanes, b: Lanes)
    requires forall j | 0 <= j < 200 :: StateByte(a, j) == StateByte(b, j)
    ensures a == b
  {
    hide LaneByte, Word;
    forall i | 0 <= i < 25
      ensures a[i] == b[i]
    {
      forall k | 0 <= k < 8 ensures LaneByte(a[i], k) == LaneByte(b[i], k) { SameByte(a, b, i, k); }
      LaneOfBytes(a[i]);
      LaneOfBytes(b[i]);
    }
  }

  lemma SameByte(a: Lanes, b: Lanes, i: nat, k: nat)
    requires i < 25 && k < 8 && forall j | 0 <= j < 200 :: StateByte(a, j) == StateByte(b, j)
    ensures LaneByte(a[i], k) == LaneByte(b[i], k)
  {
    hide LaneByte;
    var j := 8 * i + k;
    assert j / 8 == i && j % 8 == k;
    assert StateByte(a, j) == StateByte(b, j);
  }

  // ----- absorbing

  /** y is x with block b xored into its first bytes. */
  ghost predicate Mixed(x: Lanes, b: seq<bv8>, y: Lanes)
  {
    forall j | 0 <= j < 200 :: StateByte(y, j) == (if j < |b| then StateByte(x, j) ^ b[j] else StateByte(x, j))
  }

  lemma MixedIs(x: Lanes, b: seq<bv8>, y: Lanes)
    requires Mixed(x, b, y) && |b| % 8 == 0 && |b| <= 200
    ensures y == XorBlock(x, b)
  {
    hide StateByte, XorBlock;
    forall j | 0 <= j < 200
      ensures StateByte(y, j) == StateByte(XorBlock(x, b), j)
    {
      XorBlockBytes(x, b, j);
      XorZero(StateByte(x, j));
    }
    StateOfBytes(y, XorBlock(x, b));
  }

  /** Steps 5 and 6 of Algorithm 8: states[0] is the start, and each block is mixed in and permuted. */
  ghost predicate Absorbs(f: Permutation, r: nat, blocks: seq<seq<bv8>>, states: seq<Lanes>, mixed: seq<Lanes>)
  {
    && |states| == |blocks| + 1 && |mixed| == |blocks|
    && forall k | 0 <= k < |blocks| ::
         |blocks[k]| == r && Mixed(states[k], blocks[k], mixed[k]) && states[k + 1] == f(mixed[k])
  }

  ghost function Joined(blocks: seq<seq<bv8>>): seq<bv8>
  {
    if blocks == [] then [] else Joined(blocks[..|blocks| - 1]) + blocks[|blocks| - 1]
  }

  lemma {:induction false} AbsorbsIs(f: Permutation, r: nat, blocks: seq<seq<bv8>>, states: seq<Lanes>,
                                     mixed: seq<Lanes>)
    requires Rate(r) && Absorbs(f, r, blocks, states, mixed)
    ensures |Joined(blocks)| % r == 0 && Blocks(f, states[0], Joined(blocks), r) == states[|blocks|]
    decreases |blocks|
  {
    hide Mixed, Blocks, XorBlock;
    var n := |blocks|;
    if n == 0 {
      NoBlocks(f, states[0], r);
    } else {
      var m := n - 1;
      AbsorbsIs(f, r, blocks[..m], states[..n], mixed[..m]);
      assert |blocks[m]| == r && Mixed(states[m], blocks[m], mixed[m]) && states[m + 1] == f(mixed[m]);
      MixedIs(states[m], blocks[m], mixed[m]);
      BlocksSnoc(f, states[0], Joined(blocks[..m]), blocks[m], r);
      NextMultiple(|Joined(blocks[..m])|, r);
    }
  }

  lemma NoBlocks(f: Permutation, s: Lanes, r: nat)
    requires r > 0
    ensures Blocks(f, s, [], r) == s && 0 % r == 0
  {}

  lemma NextMultiple(a: nat, r: nat)
    requires r > 0 && a % r == 0
    ensures (a + r) % r == 0
  {
    RemainderDrops(a + r, r);
  }

  /** p is m, then 0x1F, zeros, and 0x80 at the end, the two in one byte if only one is missing. */
  ghost predicate ShakePadded(m: seq<bv8>, p: seq<bv8>, r: nat)
  {
    && |m| < |p| <= |m| + r && p[..|m|] == m
    && (if |p| == |m| + 1 then p[|m|] == 0x9F else p[|m|] == 0x1F && p[|p| - 1] == 0x80)
    && forall i | |m| < i < |p| - 1 :: p[i] == 0
  }

  lemma PaddedIs(m: seq<bv8>, p: seq<bv8>, r: nat)
    requires r > 0 && |p| % r == 0 && ShakePadded(m, p, r)
    ensures var full := |m| - |m| % r; p == m[..full] + PadBlock(m[full..], r, 0x1F)
  {
    hide PadByte;
    var full := |m| - |m| % r;
    var tail := m[full..];
    PaddedLength(|m|, |p|, r);
    forall i | 0 <= i < r
      ensures p[full + i] == PadByte(tail, r, 0x1F, i)
    {
      PaddedByte(m, p, r, full, i);
    }
    assert p[full..] == PadBlock(tail, r, 0x1F);
    assert p[..full] == m[..full];
    assert p == p[..full] + p[full..];
  }

  lemma PaddedLength(m: nat, p: nat, r: nat)
    requires r > 0 && p % r == 0 && m < p <= m + r
    ensures m % r <= m && p == m - m % r + r
  {
    var q, k := m / r, p / r;
    assert m == q * r + m % r && p == k * r;
    var j := k - q - 1;
    assert j * r == k * r - q * r - r;
    Congruence.MulAtLeast(j, r);
    assert 0 * r == 0;
  }

  lemma PaddedByte(m: seq<bv8>, p: seq<bv8>, r: nat, full: nat, i: nat)
    requires ShakePadded(m, p, r) && full <= |m| < full + r && |p| == full + r && i < r
    ensures p[full + i] == PadByte(m[full..], r, 0x1F, i)
  {
    PadConstants();
    var at := full + i;
    if at < |m| { assert p[at] == p[..|m|][at]; }
  }

  /**
   * The state after a message, by Algorithm 8 of FIPS 202 on bytes: split the padded message into
   * blocks, and mix and permute them one after the other from the zero state.
   */
  lemma AbsorbedMeans(f: Permutation, m: seq<bv8>, r: nat, blocks: seq<seq<bv8>>, states: seq<Lanes>, mixed: seq<Lanes>)
    requires Rate(r) && ShakePadded(m, Joined(blocks), r) && Absorbs(f, r, blocks, states, mixed)
    requires forall j | 0 <= j < 200 :: StateByte(states[0], j) == 0
    ensures Absorbed(f, m, r, 0x1F) == states[|blocks|]
  {
    hide Blocks, PadBlock, Absorbs, ShakePadded, StateByte, Joined, Mixed;
    AbsorbsShape(f, r, blocks, states, mixed);
    AbsorbsIs(f, r, blocks, states, mixed);
    PaddedIs(m, Joined(blocks), r);
    forall j | 0 <= j < 200 ensures StateByte(states[0], j) == StateByte(ZeroLanes(), j) { ZeroByte(j); }
    StateOfBytes(states[0], ZeroLanes());
  }

  lemma AbsorbsShape(f: Permutation, r: nat, blocks: seq<seq<bv8>>, states: seq<Lanes>, mixed: seq<Lanes>)
    requires Absorbs(f, r, blocks, states, mixed)
    ensures |states| == |blocks| + 1
  {}

  lemma ZeroByte(j: nat)
    requires j < 200
    ensures StateByte(ZeroLanes(), j) == 0
  {}
}
