/** The mask functions of `src/memory.cpp`, on bytes as bit-vectors. */
module ConstantTime {
  import opened Digits

  function BoolMask(value: bool): (mask: bv8)
    ensures mask == if value then 0xFF else 0x00
  {
    0 - (if value then 1 else 0)
  }

  /** 0xFF for zero and 0x00 otherwise, without a branch. */
  function IsZeroMask(value: bv8): (mask: bv8)
    ensures mask == if value == 0 then 0xFF else 0x00
  {
    var wide := value as bv32;
    var nonZero := (wide | (0 - wide)) >> 31;
    assert value == 0 <==> wide == 0;
    assert wide != 0 ==> nonZero == 1;
    assert wide == 0 ==> nonZero == 0;
    0 - (nonZero ^ 1) as bv8
  }

  /** Masks of truth values combine as the truth values do. */
  lemma FullMask(b: bool)
    ensures BoolMask(b) == 0xFF <==> b
  {
  }

  lemma XorTwice(b: bv8, m: bv8)
    ensures (b ^ m) ^ m == b
  {
  }

  lemma BoolMasks(a: bool, b: bool)
    ensures BoolMask(a) & BoolMask(b) == BoolMask(a && b) && !BoolMask(a) == BoolMask(!a)
    ensures BoolMask(a) | BoolMask(b) == BoolMask(a || b)
  {
  }

  lemma ZeroMaskIsBool(value: bv8)
    ensures IsZeroMask(value) == BoolMask(value == 0)
  {
  }

  /** 0xFF exactly when the bytes agree. */
  function SameMask(value: bv8, expected: bv8): (mask: bv8)
    ensures mask == BoolMask(value == expected)
  {
    assert value ^ expected == 0 <==> value == expected;
    IsZeroMask(value ^ expected)
  }

  /** Chooses by the top bit of the mask. */
  function Select(mask: bv8, ifSet: bv8, ifClear: bv8): (r: bv8)
    ensures r == if mask >= 0x80 then ifSet else ifClear
  {
    var canonicalMask := 0 - ((mask >> 7) & 1);
    assert canonicalMask == if mask >= 0x80 then 0xFF else 0x00;
    (ifSet & canonicalMask) | (ifClear & !canonicalMask)
  }

  /** The same choice between indices, and between bytes as numbers. */
  function SelectSize(mask: bv8, ifSet: nat, ifClear: nat): nat {
    if (mask >> 7) & 1 == 1 then ifSet else ifClear
  }

  function SelectByte(mask: bv8, ifSet: Byte, ifClear: Byte): Byte {
    if (mask >> 7) & 1 == 1 then ifSet else ifClear
  }

  lemma SelectByteSpec(ifSet: Byte, ifClear: Byte)
    ensures SelectByte(0xFF, ifSet, ifClear) == ifSet && SelectByte(0x00, ifSet, ifClear) == ifClear
  {
  }

  /** Accumulates every difference; zero exactly when there is none. */
  method Equal(lhs: seq<bv8>, rhs: seq<bv8>) returns (r: bool)
    ensures r <==> lhs == rhs
  {
    if |lhs| != |rhs| {
      return false;
    }
    var diff: bv8 := 0;
    for i := 0 to |lhs|
      invariant diff == 0 <==> lhs[..i] == rhs[..i]
    {
      assert lhs[..i + 1] == lhs[..i] + [lhs[i]] && rhs[..i + 1] == rhs[..i] + [rhs[i]];
      OrXorZero(diff, lhs[i], rhs[i]);
      diff := diff | (lhs[i] ^ rhs[i]);
    }
    assert lhs[..|lhs|] == lhs && rhs[..|rhs|] == rhs;
    r := diff == 0;
  }

  lemma OrXorZero(d: bv8, x: bv8, y: bv8)
    ensures d | (x ^ y) == 0 <==> d == 0 && x == y
  {
    assert x ^ y == 0 <==> x == y;
    assert d | (x ^ y) == 0 <==> d == 0 && x ^ y == 0;
  }
}
