/**
 * The Fiat-Shamir challenger of solomon-zk/src/challenger.rs over an arbitrary hash function. Its
 * state is the byte string absorbed since the last reset.
 */
module Transcript {
  import opened Basics
  import opened Goldilocks
  import opened Merkle

  /** Four bytes, the lowest first. */
  function Le32(v: nat): (r: Bytes)
    requires v < TWO_32
    ensures |r| == 4
  {
    var a := v / 256;
    var b := a / 256;
    [v % 256, a % 256, b % 256, b / 256]
  }

  /** u64::to_le_bytes. */
  function Le64(v: U64): (r: Bytes)
    ensures |r| == 8
  {
    Le32(v % TWO_32) + Le32(v / TWO_32)
  }

  function Word(b0: int, b1: int, b2: int, b3: int): int
  {
    b0 + b1 * 0x100 + b2 * 0x1_0000 + b3 * 0x100_0000
  }

  /** u64::from_le_bytes. */
  function FromLe64(b: Bytes): (r: U64)
    requires |b| == 8
  {
    Word(b[0], b[1], b[2], b[3]) + 0x1_0000_0000 * Word(b[4], b[5], b[6], b[7])
  }

  lemma Le32RoundTrip(v: nat)
    requires v < TWO_32
    ensures var b := Le32(v); Word(b[0], b[1], b[2], b[3]) == v
  {}

  lemma Le64RoundTrip(v: U64)
    ensures FromLe64(Le64(v)) == v
  {
    hide Le32, Word;
    var lo, hi := v % TWO_32, v / TWO_32;
    Le32RoundTrip(lo);
    Le32RoundTrip(hi);
    var b := Le64(v);
    assert b[0] == Le32(lo)[0] && b[1] == Le32(lo)[1] && b[2] == Le32(lo)[2] && b[3] == Le32(lo)[3];
    assert b[4] == Le32(hi)[0] && b[5] == Le32(hi)[1] && b[6] == Le32(hi)[2] && b[7] == Le32(hi)[3];
  }

  /** The field element drawn in a state; the state after it is the digest itself. */
  function Challenge(h: HashFunction, state: Bytes): Felt
  {
    hide FromLe64;
    FromU64(FromLe64(h(state)[..8]) % P)
  }

  /** n draws in a row. */
  function Challenges(h: HashFunction, state: Bytes, n: nat): (r: seq<Felt>)
    ensures |r| == n
    decreases n
  {
    hide Challenge;
    if n == 0 then [] else [Challenge(h, state)] + Challenges(h, h(state), n - 1)
  }

  function StateAfter(h: HashFunction, state: Bytes, n: nat): Bytes
    decreases n
  {
    if n == 0 then state else StateAfter(h, h(state), n - 1)
  }

  lemma DrawStep(h: HashFunction, state: Bytes, n: nat, drawn: seq<Felt>)
    requires n > 0
    ensures drawn + Challenges(h, state, n) == (drawn + [Challenge(h, state)]) + Challenges(h, h(state), n - 1)
    ensures StateAfter(h, state, n) == StateAfter(h, h(state), n - 1)
  {
    hide Challenge;
  }

  lemma NoDraws(h: HashFunction, state: Bytes, drawn: seq<Felt>)
    ensures drawn + Challenges(h, state, 0) == drawn && StateAfter(h, state, 0) == state
  {}

  class Challenger {
    const hash: HashFunction
    var absorbed: Bytes

    constructor (hash: HashFunction)
      ensures this.hash == hash && absorbed == []
    {
      this.hash := hash;
      absorbed := [];
    }

    method ObserveSlice(data: Bytes)
      modifies this
      ensures absorbed == old(absorbed) + data
    {
      absorbed := absorbed + data;
    }

    method Observe(element: U64)
      modifies this
      ensures absorbed == old(absorbed) + Le64(element)
    {
      absorbed := absorbed + Le64(element);
    }

    /** finalize_reset, then the digest is absorbed again. */
    method SampleExt() returns (r: Felt)
      modifies this
      ensures r == Challenge(hash, old(absorbed)) && absorbed == hash(old(absorbed))
    {
      var result: Bytes := hash(absorbed);
      absorbed := [];
      absorbed := absorbed + result;
      r := FromU64(FromLe64(result[..8]) % P);
    }

    method SampleAlphas(count: nat) returns (alphas: seq<Felt>)
      modifies this
      ensures alphas == Challenges(hash, old(absorbed), count) && absorbed == StateAfter(hash, old(absorbed), count)
    {
      hide Challenge, Challenges, StateAfter;
      alphas := [];
      ghost var start := absorbed;
      for i := 0 to count
        invariant Challenges(hash, start, count) == alphas + Challenges(hash, absorbed, count - i)
        invariant StateAfter(hash, start, count) == StateAfter(hash, absorbed, count - i)
      {
        DrawStep(hash, absorbed, count - i, alphas);
        var r := SampleExt();
        alphas := alphas + [r];
      }
      NoDraws(hash, absorbed, alphas);
    }
  }
}
