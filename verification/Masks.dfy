/** Selections made with masks instead of branches: only the values the mask code computes. */
module Masks {
  import opened NumberTheory
  import opened Digits
  import Montgomery

  const ALL_ONES: Word := 0xFFFF_FFFF

  /** The top bit of the byte, negated as a 32-bit word. */
  function WordMaskFromByte(mask: bv8): Word {
    (0 - ((mask >> 7) & 1) as int) % BASE
  }

  lemma WordMaskCases(mask: bv8)
    ensures WordMaskFromByte(mask) == if mask & 0x80 != 0 then ALL_ONES else 0
  {
    assert (mask >> 7) & 1 == if mask & 0x80 != 0 then 1 else 0;
  }

  function WordLessThanMask(lhs: Word, rhs: Word): bv32 {
    0 - (if lhs < rhs then 1 else 0)
  }

  function ByteMaskFromWord(mask: bv32): bv8 {
    0 - ((mask >> 31) & 1) as bv8
  }

  function WordNonZeroMask(value: Word): bv32 {
    var v := value as bv32;
    0 - (((v | (0 - v)) >> 31) & 1)
  }

  /** The byte mask of a single bit: 0xFF for one, 0x00 for zero. */
  function BitMask(bit: nat): bv8
    requires bit <= 1
  {
    0 - (bit as bv8)
  }

  function MaskWord(mask: Word, ifSet: Word, ifClear: Word): Word {
    MaskedBound(mask, ifSet, ifClear);
    BitOr(BitAnd(ifSet, mask), BitAnd(ifClear, ALL_ONES - mask))
  }

  lemma MaskedBound(mask: Word, ifSet: Word, ifClear: Word)
    ensures BitOr(BitAnd(ifSet, mask), BitAnd(ifClear, ALL_ONES - mask)) < BASE
  {
    BitAndBound(ifSet, mask);
    BitAndBound(ifClear, ALL_ONES - mask);
    Montgomery.Pow32();
    hide Pow;
    BitOrBound(BitAnd(ifSet, mask), BitAnd(ifClear, ALL_ONES - mask), 32);
  }

  /** A full mask takes the first word, an empty one the second. */
  lemma MaskWordChooses(ifSet: Word, ifClear: Word)
    ensures MaskWord(ALL_ONES, ifSet, ifClear) == ifSet && MaskWord(0, ifSet, ifClear) == ifClear
  {
    Montgomery.Pow32();
    BitAndBound(ifSet, 0);
    BitAndBound(ifClear, 0);
    BitAndOnes(ifSet, 32);
    BitAndOnes(ifClear, 32);
    hide Pow;
    hide BitAnd;
  }

  lemma NonZeroMaskSpec(value: Word)
    ensures ByteMaskFromWord(WordNonZeroMask(value)) == if value != 0 then 0xFF else 0x00
  {
    var v := value as bv32;
    assert v == 0 <==> value == 0;
    assert v != 0 ==> ((v | (0 - v)) >> 31) & 1 == 1;
  }
}
