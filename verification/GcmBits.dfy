/** Single bits of bytes, most significant first, as `src/aes_gcm.cpp` numbers them. */
module GcmBits {

  /** Bit j of a byte, bit 0 the most significant. */
  predicate BitOf(b: bv8, j: nat)
    requires j < 8
  {
    (b >> (7 - j)) & 1 != 0
  }

  lemma BitOfMasks(b: bv8)
    ensures BitOf(b, 0) == (b & 0x80 != 0) && BitOf(b, 1) == (b & 0x40 != 0) && BitOf(b, 2) == (b & 0x20 != 0)
    ensures BitOf(b, 3) == (b & 0x10 != 0) && BitOf(b, 4) == (b & 0x08 != 0) && BitOf(b, 5) == (b & 0x04 != 0)
    ensures BitOf(b, 6) == (b & 0x02 != 0) && BitOf(b, 7) == (b & 0x01 != 0)
  {
  }

  lemma BitOfXor(a: bv8, b: bv8, j: nat)
    requires j < 8
    ensures BitOf(a ^ b, j) == (BitOf(a, j) != BitOf(b, j))
  {
    ShiftXor(a, b, 7 - j);
    LowXor(a >> (7 - j), b >> (7 - j));
  }

  lemma LowXor(p: bv8, q: bv8)
    ensures ((p ^ q) & 1 != 0) == ((p & 1 != 0) != (q & 1 != 0))
  {
  }

  lemma ShiftXor(a: bv8, b: bv8, n: nat)
    requires n < 8
    ensures (a ^ b) >> n == (a >> n) ^ (b >> n)
  {
    if n == 0 {
    } else if n == 1 {
    } else if n == 2 {
    } else if n == 3 {
    } else if n == 4 {
    } else if n == 5 {
    } else if n == 6 {
    } else {
    }
  }

  function ShiftByte(b: bv8, carry: bv8): bv8 {
    (b >> 1) | (carry << 7)
  }

  /** Every bit moves one place towards the end, the carry enters in front. */
  lemma BitOfShift(b: bv8, previous: bv8, j: nat)
    requires j < 8
    ensures BitOf(ShiftByte(b, previous & 1), j) == if j == 0 then BitOf(previous, 7) else BitOf(b, j - 1)
  {
    if j == 0 {
    } else if j == 1 {
    } else if j == 2 {
    } else if j == 3 {
    } else if j == 4 {
    } else if j == 5 {
    } else if j == 6 {
    } else {
    }
  }

  lemma NoCarry(b: bv8, j: nat)
    requires j < 8
    ensures BitOf(ShiftByte(b, 0), j) == if j == 0 then false else BitOf(b, j - 1)
  {
    if j == 0 {
    } else if j == 1 {
    } else if j == 2 {
    } else if j == 3 {
    } else if j == 4 {
    } else if j == 5 {
    } else if j == 6 {
    } else {
    }
  }

  lemma BitsDetermine(a: bv8, b: bv8)
    requires BitOf(a, 0) == BitOf(b, 0) && BitOf(a, 1) == BitOf(b, 1) && BitOf(a, 2) == BitOf(b, 2) && BitOf(a, 3) == BitOf(b, 3)
    requires BitOf(a, 4) == BitOf(b, 4) && BitOf(a, 5) == BitOf(b, 5) && BitOf(a, 6) == BitOf(b, 6) && BitOf(a, 7) == BitOf(b, 7)
    ensures a == b
  {
  }

  /** 0xe1 holds the terms 1, x, x^2 and x^7. */
  lemma ReductionByte()
    ensures BitOf(0xe1, 0) && BitOf(0xe1, 1) && BitOf(0xe1, 2) && BitOf(0xe1, 7)
    ensures !BitOf(0xe1, 3) && !BitOf(0xe1, 4) && !BitOf(0xe1, 5) && !BitOf(0xe1, 6)
  {
  }

  lemma ZeroByte(j: nat)
    requires j < 8
    ensures !BitOf(0, j)
  {
    if j == 0 {
    } else if j == 1 {
    } else if j == 2 {
    } else if j == 3 {
    } else if j == 4 {
    } else if j == 5 {
    } else if j == 6 {
    } else {
    }
  }

  lemma LowBit(b: bv8)
    ensures (b & 1 != 0) == BitOf(b, 7)
  {
  }
}
