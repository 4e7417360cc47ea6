/** The 25 lanes of a Keccak state and their bytes, after solomon-core/src/crypto/shake.rs. */
module KeccakLanes {

  type Lanes = s: seq<bv64> | |s| == 25 witness seq(25, _ => 0)

  function Low(lane: bv64): bv8 { (lane & 0xFF) as bv8 }

  /** (lane >> 8k) as u8. */
  function LaneByte(lane: bv64, k: nat): bv8
    requires k < 8
  {
    if k == 0 then Low(lane) else if k == 1 then Low(lane >> 8) else if k == 2 then Low(lane >> 16)
    else if k == 3 then Low(lane >> 24) else if k == 4 then Low(lane >> 32) else if k == 5 then Low(lane >> 40)
    else if k == 6 then Low(lane >> 48) else Low(lane >> 56)
  }

  /** Eight bytes as a little-endian word. */
  function Word(b0: bv8, b1: bv8, b2: bv8, b3: bv8, b4: bv8, b5: bv8, b6: bv8, b7: bv8): bv64
  {
    (b0 as bv64) | ((b1 as bv64) << 8) | ((b2 as bv64) << 16) | ((b3 as bv64) << 24)
    | ((b4 as bv64) << 32) | ((b5 as bv64) << 40) | ((b6 as bv64) << 48) | ((b7 as bv64) << 56)
  }

  function Xor64(a: bv64, b: bv64): bv64 { a ^ b }

  function Xor8(a: bv8, b: bv8): bv8 { a ^ b }

  // Byte k of a lane xored with a word is byte k of the lane xored with byte k of the word.

  lemma XorByte0(l: bv64, b0: bv8, b1: bv8, b2: bv8, b3: bv8, b4: bv8, b5: bv8, b6: bv8, b7: bv8)
    ensures LaneByte(Xor64(l, Word(b0, b1, b2, b3, b4, b5, b6, b7)), 0) == Xor8(LaneByte(l, 0), b0)
  {}

  lemma XorByte1(l: bv64, b0: bv8, b1: bv8, b2: bv8, b3: bv8, b4: bv8, b5: bv8, b6: bv8, b7: bv8)
    ensures LaneByte(Xor64(l, Word(b0, b1, b2, b3, b4, b5, b6, b7)), 1) == Xor8(LaneByte(l, 1), b1)
  {}

  lemma XorByte2(l: bv64, b0: bv8, b1: bv8, b2: bv8, b3: bv8, b4: bv8, b5: bv8, b6: bv8, b7: bv8)
    ensures LaneByte(Xor64(l, Word(b0, b1, b2, b3, b4, b5, b6, b7)), 2) == Xor8(LaneByte(l, 2), b2)
  {}

  lemma XorByte3(l: bv64, b0: bv8, b1: bv8, b2: bv8, b3: bv8, b4: bv8, b5: bv8, b6: bv8, b7: bv8)
    ensures LaneByte(Xor64(l, Word(b0, b1, b2, b3, b4, b5, b6, b7)), 3) == Xor8(LaneByte(l, 3), b3)
  {}

  lemma XorByte4(l: bv64, b0: bv8, b1: bv8, b2: bv8, b3: bv8, b4: bv8, b5: bv8, b6: bv8, b7: bv8)
    ensures LaneByte(Xor64(l, Word(b0, b1, b2, b3, b4, b5, b6, b7)), 4) == Xor8(LaneByte(l, 4), b4)
  {}

  lemma XorByte5(l: bv64, b0: bv8, b1: bv8, b2: bv8, b3: bv8, b4: bv8, b5: bv8, b6: bv8, b7: bv8)
    ensures LaneByte(Xor64(l, Word(b0, b1, b2, b3, b4, b5, b6, b7)), 5) == Xor8(LaneByte(l, 5), b5)
  {}

  lemma XorByte6(l: bv64, b0: bv8, b1: bv8, b2: bv8, b3: bv8, b4: bv8, b5: bv8, b6: bv8, b7: bv8)
    ensures LaneByte(Xor64(l, Word(b0, b1, b2, b3, b4, b5, b6, b7)), 6) == Xor8(LaneByte(l, 6), b6)
  {}

  lemma XorByte7(l: bv64, b0: bv8, b1: bv8, b2: bv8, b3: bv8, b4: bv8, b5: bv8, b6: bv8, b7: bv8)
    ensures LaneByte(Xor64(l, Word(b0, b1, b2, b3, b4, b5, b6, b7)), 7) == Xor8(LaneByte(l, 7), b7)
  {}

  /** The word the absorbing loop assembles from bytes 8i .. 8i+7 of a block. */
  function WordAt(b: seq<bv8>, i: nat): bv64
    requires 8 * i + 8 <= |b|
  {
    Word(b[8 * i], b[8 * i + 1], b[8 * i + 2], b[8 * i + 3], b[8 * i + 4], b[8 * i + 5], b[8 * i + 6], b[8 * i + 7])
  }

  /** Byte j of a state. */
  function StateByte(s: Lanes, j: nat): bv8
    requires j < 200
  {
    hide LaneByte;
    LaneByte(s[j / 8], j % 8)
  }

  /** Xoring words into lanes xors bytes into bytes. */
  lemma XorByte(lane: bv64, b: seq<bv8>, i: nat, k: nat)
    requires 8 * i + 8 <= |b| && k < 8
    ensures LaneByte(Xor64(lane, WordAt(b, i)), k) == Xor8(LaneByte(lane, k), b[8 * i + k])
  {
    hide LaneByte, Word, Xor64, Xor8;
    var b0, b1, b2, b3 := b[8 * i], b[8 * i + 1], b[8 * i + 2], b[8 * i + 3];
    var b4, b5, b6, b7 := b[8 * i + 4], b[8 * i + 5], b[8 * i + 6], b[8 * i + 7];
    match k
    case 0 => XorByte0(lane, b0, b1, b2, b3, b4, b5, b6, b7);
    case 1 => XorByte1(lane, b0, b1, b2, b3, b4, b5, b6, b7);
    case 2 => XorByte2(lane, b0, b1, b2, b3, b4, b5, b6, b7);
    case 3 => XorByte3(lane, b0, b1, b2, b3, b4, b5, b6, b7);
    case 4 => XorByte4(lane, b0, b1, b2, b3, b4, b5, b6, b7);
    case 5 => XorByte5(lane, b0, b1, b2, b3, b4, b5, b6, b7);
    case 6 => XorByte6(lane, b0, b1, b2, b3, b4, b5, b6, b7);
    case _ => XorByte7(lane, b0, b1, b2, b3, b4, b5, b6, b7);
  }

  /** Lane i once the block is xored in. */
  function XorLaneAt(s: Lanes, b: seq<bv8>, i: nat): bv64
    requires i < 25
  {
    hide WordAt, Xor64;
    if 8 * i + 8 <= |b| then Xor64(s[i], WordAt(b, i)) else s[i]
  }

  function XorBlock(s: Lanes, b: seq<bv8>): (r: Lanes)
    ensures forall i | 0 <= i < 25 :: r[i] == XorLaneAt(s, b, i)
  {
    hide XorLaneAt;
    seq(25, i requires 0 <= i < 25 => XorLaneAt(s, b, i))
  }

  /** The state xored with the block followed by zeros, byte by byte. */
  lemma XorBlockBytes(s: Lanes, b: seq<bv8>, j: nat)
    requires |b| % 8 == 0 && |b| <= 200 && j < 200
    ensures StateByte(XorBlock(s, b), j) == Xor8(StateByte(s, j), if j < |b| then b[j] else 0)
  {
    hide LaneByte, WordAt, XorBlock, Xor64, Xor8;
    var i, k := j / 8, j % 8;
    if j < |b| {
      XorByte(s[i], b, i, k);
    } else {
      XorZero(StateByte(s, j));
    }
  }

  lemma XorZero(x: bv8)
    ensures Xor8(x, 0) == x
  {}

  function ZeroLanes(): Lanes
  {
    seq(25, _ => 0)
  }
}
