/**
 * The sponge of solomon-core/src/crypto/shake.rs over an arbitrary permutation: any split of the
 * input across absorb calls and of the output across squeeze calls gives SPONGE[f, pad10*1, r] of
 * FIPS 202, section 4.
 */
module KeccakSponge {
  import Congruence
  import opened KeccakLanes

  type Permutation = Lanes -> Lanes

  // ----- SPONGE

  ghost predicate Rate(r: nat) { 0 < r < 200 && r % 8 == 0 }

  /** Absorbs every whole block of p. */
  ghost function Blocks(f: Permutation, s: Lanes, p: seq<bv8>, r: nat): Lanes
    requires r > 0
    decreases |p|
  {
    hide XorBlock;
    if |p| < r then s else Blocks(f, f(XorBlock(s, p[..r])), p[r..], r)
  }

  /** The last block: the remaining bytes, the suffix, zeros, and the top bit of the last byte. */
  function PadByte(tail: seq<bv8>, r: nat, suffix: bv8, i: nat): bv8
  {
    var b := if i < |tail| then tail[i] else if i == |tail| then suffix else 0;
    if i + 1 == r then Xor8(b, 0x80) else b
  }

  function PadBlock(tail: seq<bv8>, r: nat, suffix: bv8): (b: seq<bv8>)
    ensures |b| == r && forall i | 0 <= i < r :: b[i] == PadByte(tail, r, suffix, i)
  {
    hide PadByte;
    seq(r, i requires 0 <= i < r => PadByte(tail, r, suffix, i))
  }

  /** The state after message m and its padding. */
  ghost function Absorbed(f: Permutation, m: seq<bv8>, r: nat, suffix: bv8): Lanes
    requires r > 0
  {
    hide PadBlock;
    var full := |m| - |m| % r;
    Blocks(f, ZeroLanes(), m[..full] + PadBlock(m[full..], r, suffix), r)
  }

  ghost function Iterate(f: Permutation, s: Lanes, n: nat): Lanes
  {
    if n == 0 then s else f(Iterate(f, s, n - 1))
  }

  /** Byte i of the endless output. */
  ghost function OutByte(f: Permutation, s: Lanes, r: nat, i: nat): bv8
    requires Rate(r)
  {
    hide StateByte;
    StateByte(Iterate(f, s, i / r), i % r)
  }

  /** n bytes of output from byte from on. */
  ghost function Output(f: Permutation, s: Lanes, r: nat, from: nat, n: nat): (o: seq<bv8>)
    requires Rate(r)
    ensures |o| == n && forall i | 0 <= i < n :: o[i] == OutByte(f, s, r, from + i)
  {
    hide OutByte;
    seq(n, i requires 0 <= i < n => OutByte(f, s, r, from + i))
  }

  /** SPONGE[f, pad, r](m, n), in bytes. */
  ghost function Sponge(f: Permutation, r: nat, suffix: bv8, m: seq<bv8>, n: nat): seq<bv8>
    requires Rate(r)
  {
    Output(f, Absorbed(f, m, r, suffix), r, 0, n)
  }

  lemma {:induction false} BlocksSnoc(f: Permutation, s: Lanes, p: seq<bv8>, b: seq<bv8>, r: nat)
    requires r > 0 && |p| % r == 0 && |b| == r
    ensures Blocks(f, s, p + b, r) == f(XorBlock(Blocks(f, s, p, r), b))
    decreases |p|
  {
    hide XorBlock;
    if |p| < r {
      assert |p| == 0 by { SmallRemainder(|p|, r); }
      assert (p + b)[..r] == b && (p + b)[r..] == [];
    } else {
      assert (p + b)[..r] == p[..r] && (p + b)[r..] == p[r..] + b;
      RemainderDrops(|p|, r);
      BlocksSnoc(f, f(XorBlock(s, p[..r])), p[r..], b, r);
    }
  }

  lemma SmallRemainder(a: nat, r: nat)
    requires a < r
    ensures a % r == a
  {}

  lemma RemainderDrops(a: nat, r: nat)
    requires r > 0 && a >= r
    ensures (a - r) % r == a % r
  {
    var q := a / r;
    assert a == q * r + a % r;
    assert (q - 1) * r == q * r - r;
    Congruence.DivModUnique(a - r, q - 1, a % r, r);
  }

  /** A message given as whole blocks and a shorter tail. */
  lemma AbsorbedParts(f: Permutation, full: seq<bv8>, tail: seq<bv8>, r: nat, suffix: bv8)
    requires r > 0 && |full| % r == 0 && |tail| < r
    ensures Absorbed(f, full + tail, r, suffix)
            == f(XorBlock(Blocks(f, ZeroLanes(), full, r), PadBlock(tail, r, suffix)))
  {
    hide XorBlock, PadBlock, Blocks;
    var m := full + tail;
    var q := |full| / r;
    assert |full| == q * r;
    Congruence.DivModUnique(|m|, q, |tail|, r);
    assert m[..|full|] == full && m[|full|..] == tail;
    BlocksSnoc(f, ZeroLanes(), full, PadBlock(tail, r, suffix), r);
  }

  // ----- the padding, bit by bit

  /** The bits of a byte, the lowest first. */
  function Bits(b: bv8): (r: seq<bool>)
    ensures |r| == 8
  {
    [b & 1 != 0, b & 2 != 0, b & 4 != 0, b & 8 != 0, b & 16 != 0, b & 32 != 0, b & 64 != 0, b & 128 != 0]
  }

  function BitString(p: seq<bv8>): (r: seq<bool>)
    ensures |r| == 8 * |p|
  {
    hide Bits;
    if p == [] then [] else Bits(p[0]) + BitString(p[1..])
  }

  lemma {:induction false} BitStringConcat(p: seq<bv8>, q: seq<bv8>)
    ensures BitString(p + q) == BitString(p) + BitString(q)
    decreases |p|
  {
    hide Bits;
    if p == [] {
      assert p + q == q;
    } else {
      assert (p + q)[1..] == p[1..] + q;
      BitStringConcat(p[1..], q);
    }
  }

  function ZeroBits(n: nat): (r: seq<bool>)
    ensures |r| == n && forall i | 0 <= i < n :: !r[i]
  {
    seq(n, _ => false)
  }

  lemma {:induction false} ZeroBytes(z: seq<bv8>)
    requires forall i | 0 <= i < |z| :: z[i] == 0
    ensures BitString(z) == ZeroBits(8 * |z|)
    decreases |z|
  {
    if z != [] {
      ZeroBytes(z[1..]);
      assert Bits(0) == ZeroBits(8);
    }
  }

  /** The 1111 of SHAKE and pad10*1 up to the end of n bytes: a one, zeros, and a one. */
  function PadBits(n: nat): seq<bool>
    requires n > 0
  {
    [true, true, true, true] + [true] + ZeroBits(8 * n - 6) + [true]
  }

  /**
   * With the suffix 0x1F of SHAKE the padded tail is, bit by bit, the tail, 1111, and pad10*1 with
   * as few zeros as reach a whole block.
   */
  lemma ShakePadding(tail: seq<bv8>, r: nat)
    requires |tail| < r
    ensures BitString(PadBlock(tail, r, 0x1F)) == BitString(tail) + PadBits(r - |tail|)
  {
    hide BitString, PadBlock, PadTail, PadBits;
    PadTailBytes(tail, r);
    BitStringConcat(tail, PadTail(r - |tail|));
    PadTailBits(r - |tail|);
  }

  function ZeroOctets(n: nat): (r: seq<bv8>)
    ensures |r| == n && forall i | 0 <= i < n :: r[i] == 0
  {
    seq(n, _ => 0)
  }

  /** The n bytes that follow the message in its last block. */
  function PadTail(n: nat): seq<bv8>
  {
    if n <= 1 then [0x9F] else [0x1F] + ZeroOctets(n - 2) + [0x80]
  }

  lemma PadTailBytes(tail: seq<bv8>, r: nat)
    requires |tail| < r
    ensures PadBlock(tail, r, 0x1F) == tail + PadTail(r - |tail|)
  {
    hide Xor8;
    PadConstants();
  }

  lemma PadTailBits(n: nat)
    requires n > 0
    ensures BitString(PadTail(n)) == PadBits(n)
  {
    hide BitString, Bits;
    if n == 1 {
      OneByte(0x9F);
      OneBytePad();
    } else {
      var zeros := ZeroOctets(n - 2);
      BitStringConcat([0x1F] + zeros, [0x80]);
      BitStringConcat([0x1F], zeros);
      OneByte(0x1F);
      OneByte(0x80);
      ZeroBytes(zeros);
      TwoBytePad(8 * (n - 2));
    }
  }

  lemma PadConstants()
    ensures Xor8(0x1F, 0x80) == 0x9F && Xor8(0, 0x80) == 0x80
  {}

  lemma OneByte(b: bv8)
    ensures BitString([b]) == Bits(b)
  {
    assert BitString([b]) == Bits(b) + BitString([]);
  }

  lemma OneBytePad()
    ensures Bits(0x9F) == [true, true, true, true] + [true] + ZeroBits(2) + [true]
  {}

  lemma TwoBytePad(n: nat)
    ensures Bits(0x1F) + ZeroBits(n) + Bits(0x80) == [true, true, true, true] + [true] + ZeroBits(n + 10) + [true]
  {
    assert Bits(0x1F) == [true, true, true, true, true, false, false, false];
    assert Bits(0x80) == [false, false, false, false, false, false, false, true];
  }

  // ----- the state machine

  class KeccakSponge {
    const f: Permutation
    const rate: nat
    const suffix: bv8
    const buffer: array<bv8>
    var state: Lanes
    var pos: nat
    var squeezing: bool
    /** The whole blocks absorbed so far. */
    ghost var full: seq<bv8>
    /** The bytes absorbed before squeezing began. */
    ghost var message: seq<bv8>
    /** The number of bytes squeezed so far. */
    ghost var given: nat

    /**
     * Absorbing: the buffer holds the bytes not yet absorbed and is zero beyond pos. Squeezing: the
     * state is the one that produces byte number given.
     */
    ghost predicate Valid()
      reads this, buffer
    {
      && Rate(rate) && buffer.Length == 200 && |full| % rate == 0
      && if squeezing then
           pos <= rate && Squeezed(f, Absorbed(f, message, rate, suffix), rate, state, pos, given)
         else
           && pos < rate && given == 0 && message == full + buffer[..pos]
           && state == Blocks(f, ZeroLanes(), full, rate) && forall i | pos <= i < 200 :: buffer[i] == 0
    }

    constructor (f: Permutation, rate: nat, suffix: bv8)
      requires Rate(rate)
      ensures Valid() && fresh(buffer) && !squeezing && message == [] && given == 0
      ensures this.f == f && this.rate == rate && this.suffix == suffix
    {
      this.f, this.rate, this.suffix := f, rate, suffix;
      state := ZeroLanes();
      buffer := new bv8[200](_ => 0);
      pos, squeezing := 0, false;
      full, message, given := [], [], 0;
    }

    /** Xors the rate part of the buffer into the state, word by word. */
    method XorBuffer()
      requires Rate(rate) && buffer.Length == 200
      modifies this`state
      ensures state == XorBlock(old(state), buffer[..rate])
    {
      hide WordAt, Xor64;
      var lanes := rate / 8;
      var was := state;
      for i := 0 to lanes
        invariant forall k | 0 <= k < 25 :: state[k] == if k < i then XorLaneAt(was, buffer[..rate], k) else was[k]
      {
        state := state[i := Xor64(state[i], WordAt(buffer[..rate], i))];
      }
      assert state == XorBlock(was, buffer[..rate]);
    }

    /** A full buffer is absorbed and cleared. */
    method Flush()
      requires Rate(rate) && buffer.Length == 200 && |full| % rate == 0 && pos == rate && !squeezing && given == 0
      requires message == full + buffer[..rate] && state == Blocks(f, ZeroLanes(), full, rate)
      modifies this, buffer
      ensures Valid() && !squeezing && message == old(message)
    {
      hide Blocks, XorBlock;
      BlocksSnoc(f, ZeroLanes(), full, buffer[..rate], rate);
      WholeBlock(|full|, rate);
      XorBuffer();
      state := f(state);
      full := full + buffer[..rate];
      pos := 0;
      forall i | 0 <= i < 200 { buffer[i] := 0; }
      assert full + buffer[..0] == full;
    }

    /** At most as many bytes as fit are copied into the buffer. */
    method Take(chunk: seq<bv8>)
      requires Valid() && !squeezing && |chunk| <= rate - pos
      modifies this, buffer
      ensures Valid() && !squeezing && message == old(message) + chunk
    {
      hide Blocks, XorBlock;
      ghost var held := buffer[..pos];
      forall i | 0 <= i < |chunk| { buffer[pos + i] := chunk[i]; }
      assert buffer[..pos + |chunk|] == held + chunk;
      pos := pos + |chunk|;
      message := message + chunk;
      assert message == full + buffer[..pos];
      if pos == rate { Flush(); }
    }

    method Absorb(data: seq<bv8>)
      requires Valid() && !squeezing
      modifies this, buffer
      ensures Valid() && !squeezing && message == old(message) + data
    {
      hide Valid;
      var idx := 0;
      ghost var start := message;
      while idx < |data|
        invariant 0 <= idx <= |data| && Valid() && !squeezing && message == start + data[..idx]
      {
        RoomLeft();
        var left, room := |data| - idx, rate - pos;
        var todo := if left < room then left else room;
        Take(data[idx..idx + todo]);
        assert data[..idx + todo] == data[..idx] + data[idx..idx + todo];
        idx := idx + todo;
      }
      assert data[..|data|] == data;
    }

    lemma RoomLeft()
      requires Valid() && !squeezing
      ensures pos < rate
    {}

    /** The padding and the switch to squeezing. */
    method Finish()
      requires Valid() && !squeezing
      modifies this, buffer
      ensures Valid() && squeezing && message == old(message) && given == 0
    {
      hide Blocks, XorBlock, Xor8;
      ghost var tail := buffer[..pos];
      PadInPlace(buffer[..], pos, rate, suffix);
      buffer[pos] := Xor8(buffer[pos], suffix);
      buffer[rate - 1] := Xor8(buffer[rate - 1], 0x80);
      assert buffer[..rate] == PadBlock(tail, rate, suffix);
      AbsorbedParts(f, full, tail, rate, suffix);
      XorBuffer();
      state := f(state);
      pos := 0;
      squeezing := true;
      FirstOutput(f, state, rate);
    }

    /** Bytes that the current state still holds. */
    method Emit(todo: nat) returns (chunk: seq<bv8>)
      requires Valid() && squeezing && todo <= rate - pos
      modifies this
      ensures Valid() && squeezing && message == old(message) && given == old(given) + todo && pos == old(pos) + todo
      ensures chunk == Output(f, Absorbed(f, message, rate, suffix), rate, old(given), todo)
    {
      hide Absorbed, StateByte, OutByte, Squeezed, Blocks;
      ghost var s := Absorbed(f, message, rate, suffix);
      var st, at := state, pos;
      chunk := seq(todo, i requires 0 <= i < todo => StateByte(st, at + i));
      forall i | 0 <= i < todo
        ensures chunk[i] == OutByte(f, s, rate, given + i)
      {
        BlockByte(f, s, rate, state, pos, given, i);
      }
      MoreGiven(f, s, rate, state, pos, given, todo);
      pos := pos + todo;
      given := given + todo;
    }

    method Squeeze(n: nat) returns (out: seq<bv8>)
      requires Valid()
      modifies this, buffer
      ensures Valid() && squeezing && message == old(message) && given == old(given) + n
      ensures out == Output(f, Absorbed(f, message, rate, suffix), rate, old(given), n)
    {
      hide Absorbed, OutByte, Squeezed, Blocks;
      if !squeezing { Finish(); }
      ghost var s := Absorbed(f, message, rate, suffix);
      ghost var start := given;
      out := [];
      while |out| < n
        invariant |out| <= n && Valid() && squeezing && message == old(message) && given == start + |out|
        invariant out == Output(f, s, rate, start, |out|)
        decreases n - |out|
      {
        if pos == rate {
          NextBlock(f, s, rate, state, given);
          state := f(state);
          pos := 0;
        }
        var left, room := n - |out|, rate - pos;
        var todo := if left < room then left else room;
        var chunk := Emit(todo);
        OutputConcat(f, s, rate, start, |out|, todo);
        out := out + chunk;
      }
    }
  }

  lemma OutputConcat(f: Permutation, s: Lanes, r: nat, from: nat, m: nat, n: nat)
    requires Rate(r)
    ensures Output(f, s, r, from, m) + Output(f, s, r, from + m, n) == Output(f, s, r, from, m + n)
  {
    hide OutByte;
  }

  function StatePrefix(s: Lanes, n: nat): (p: seq<bv8>)
    requires n <= 200
    ensures |p| == n && forall i | 0 <= i < n :: p[i] == StateByte(s, i)
  {
    hide StateByte;
    seq(n, i requires 0 <= i < n => StateByte(s, i))
  }

  /** The output is the first r bytes of the state, then those of f(state), and so on. */
  lemma OutputByBlocks(f: Permutation, s: Lanes, r: nat, n: nat)
    requires Rate(r)
    ensures Output(f, s, r, 0, n)
            == if n <= r then StatePrefix(s, n) else StatePrefix(s, r) + Output(f, f(s), r, 0, n - r)
  {
    hide StateByte;
    forall i | 0 <= i < n
      ensures OutByte(f, s, r, i) == if i < r then StateByte(s, i) else OutByte(f, f(s), r, i - r)
    {
      if i < r {
        Congruence.DivModUnique(i, 0, i, r);
      } else {
        var q := i / r;
        assert i == q * r + i % r;
        assert (q - 1) * r == q * r - r;
        Congruence.DivModUnique(i - r, q - 1, i % r, r);
        IterateFirst(f, s, q - 1);
      }
    }
  }

  lemma {:induction false} IterateFirst(f: Permutation, s: Lanes, k: nat)
    ensures Iterate(f, f(s), k) == Iterate(f, s, k + 1)
  {
    if k > 0 { IterateFirst(f, s, k - 1); }
  }

  /** state and pos are where byte number given of the output is found. */
  ghost predicate Squeezed(f: Permutation, s: Lanes, r: nat, state: Lanes, pos: nat, given: nat)
  {
    exists k: nat {:trigger Iterate(f, s, k)} :: given == k * r + pos && state == Iterate(f, s, k)
  }

  lemma WholeBlock(n: nat, r: nat)
    requires r > 0 && n % r == 0
    ensures (n + r) % r == 0
  {
    RemainderDrops(n + r, r);
  }

  lemma FirstOutput(f: Permutation, s: Lanes, r: nat)
    ensures Squeezed(f, s, r, s, 0, 0)
  {
    assert Iterate(f, s, 0) == s && 0 == 0 * r + 0;
  }

  lemma NextBlock(f: Permutation, s: Lanes, r: nat, state: Lanes, given: nat)
    requires Squeezed(f, s, r, state, r, given)
    ensures Squeezed(f, s, r, f(state), 0, given)
  {
    var k: nat :| given == k * r + r && state == Iterate(f, s, k);
    assert (k + 1) * r == k * r + r;
    assert Iterate(f, s, k + 1) == f(state);
  }

  lemma BlockByte(f: Permutation, s: Lanes, r: nat, state: Lanes, pos: nat, given: nat, i: nat)
    requires Rate(r) && Squeezed(f, s, r, state, pos, given) && pos + i < r
    ensures StateByte(state, pos + i) == OutByte(f, s, r, given + i)
  {
    hide StateByte;
    var k: nat :| given == k * r + pos && state == Iterate(f, s, k);
    Congruence.DivModUnique(given + i, k, pos + i, r);
  }

  lemma MoreGiven(f: Permutation, s: Lanes, r: nat, state: Lanes, pos: nat, given: nat, n: nat)
    requires Squeezed(f, s, r, state, pos, given)
    ensures Squeezed(f, s, r, state, pos + n, given + n)
  {
    var k: nat :| given == k * r + pos && state == Iterate(f, s, k);
    assert given + n == k * r + (pos + n);
  }

  /** Xoring suffix and top bit into a buffer that is zero beyond pos. */
  lemma PadInPlace(buffer: seq<bv8>, pos: nat, r: nat, suffix: bv8)
    requires |buffer| == 200 && pos < r < 200 && forall i | pos <= i < 200 :: buffer[i] == 0
    ensures var b := buffer[pos := Xor8(buffer[pos], suffix)];
            b[r - 1 := Xor8(b[r - 1], 0x80)][..r] == PadBlock(buffer[..pos], r, suffix)
  {
    hide Xor8;
    XorZero(suffix);
    ZeroXor(suffix);
  }

  lemma ZeroXor(x: bv8)
    ensures Xor8(0, x) == x
  {}

  // ----- runs

  function Flatten(parts: seq<seq<bv8>>): seq<bv8>
  {
    if parts == [] then [] else Flatten(parts[..|parts| - 1]) + parts[|parts| - 1]
  }

  function Sum(sizes: seq<nat>): nat
  {
    if sizes == [] then 0 else Sum(sizes[..|sizes| - 1]) + sizes[|sizes| - 1]
  }

  /** However input and output are split, the bytes are those of one SPONGE call. */
  method AnySplit(f: Permutation, rate: nat, suffix: bv8, parts: seq<seq<bv8>>, sizes: seq<nat>)
    returns (outs: seq<seq<bv8>>)
    requires Rate(rate)
    ensures |outs| == |sizes| && Flatten(outs) == Sponge(f, rate, suffix, Flatten(parts), Sum(sizes))
  {
    hide Absorbed, OutByte, Output;
    var sponge := new KeccakSponge(f, rate, suffix);
    assert parts[..0] == [] && sizes[..0] == [];
    for i := 0 to |parts|
      invariant sponge.Valid() && !sponge.squeezing && sponge.message == Flatten(parts[..i]) && sponge.given == 0
      invariant fresh(sponge) && fresh(sponge.buffer)
    {
      sponge.Absorb(parts[i]);
      assert parts[..i + 1][..i] == parts[..i];
    }
    assert parts[..|parts|] == parts;
    ghost var s := Absorbed(f, Flatten(parts), rate, suffix);
    outs := [];
    for i := 0 to |sizes|
      invariant sponge.Valid() && sponge.message == Flatten(parts) && sponge.given == Sum(sizes[..i]) && |outs| == i
      invariant fresh(sponge) && fresh(sponge.buffer)
      invariant Flatten(outs) == Output(f, s, rate, 0, Sum(sizes[..i]))
    {
      var out := sponge.Squeeze(sizes[i]);
      assert sizes[..i + 1][..i] == sizes[..i];
      assert (outs + [out])[..i] == outs;
      OutputConcat(f, s, rate, 0, Sum(sizes[..i]), sizes[i]);
      outs := outs + [out];
    }
    assert sizes[..|sizes|] == sizes;
  }

  /** shake128 and shake256. */
  method OneShot(f: Permutation, rate: nat, input: seq<bv8>, n: nat) returns (out: seq<bv8>)
    requires rate == 168 || rate == 136
    ensures out == Sponge(f, rate, 0x1F, input, n)
  {
    hide Absorbed, OutByte;
    var sponge := new KeccakSponge(f, rate, 0x1F);
    sponge.Absorb(input);
    assert [] + input == input;
    out := sponge.Squeeze(n);
  }
}
