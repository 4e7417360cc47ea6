/**
 * The branch-free selections of solomon-core/src/crypto on 32-bit words: what a mask of all zeros
 * or all ones selects, and which masks the sign and the non-zero tests produce. The models write
 * these selections as branches.
 */
module MaskSelection {

  const ONES: bv32 := 0xFFFF_FFFF

  /** x >> 31 on a signed word: the top bit in every position. */
  function Spread(x: bv32): bv32
  {
    if x & 0x8000_0000 != 0 then ONES else 0
  }

  /** The arithmetic shift by 31, as a logical shift with the sign filled in. */
  lemma SpreadIsShift(x: bv32)
    ensures Spread(x) == 0 - (x >> 31)
  {}

  /** (a & !mask) | (b & mask), as in to_signed, inf_norm and use_hint. */
  lemma MaskSelects(a: bv32, b: bv32, mask: bv32)
    requires mask == 0 || mask == ONES
    ensures (a & !mask) | (b & mask) == if mask == ONES then b else a
  {}

  /** v & mask, as in add, sub, to_canonical, power2round and decompose. */
  lemma MaskKeeps(v: bv32, mask: bv32)
    requires mask == 0 || mask == ONES
    ensures v & mask == if mask == ONES then v else 0
  {}

  /** (x | -x) >> 31, as in neg, decompose, make_hint and use_hint: all ones exactly when x is not zero. */
  lemma NonZeroMask(x: bv32)
    ensures Spread(x | (0 - x)) == if x != 0 then ONES else 0
  {}

  /** The masked negation of the source: zero stays zero, everything else is subtracted from q. */
  lemma MaskedNegation(x: bv32, q: bv32)
    ensures (q - x) & Spread(x | (0 - x)) == if x != 0 then q - x else 0
  {
    NonZeroMask(x);
  }
}
