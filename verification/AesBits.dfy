/** Facts about bytes as bit vectors that `src/aes.cpp` rests on. */
module AesBits {

  /** What falls off the top, reduced modulo x^8 + x^4 + x^3 + x + 1. */
  function Carry(value: bv8): bv8 {
    if value & 0x80 != 0 then 0x1b else 0x00
  }

  /** Multiplication by x. */
  function Xtime(value: bv8): bv8 {
    (value << 1) ^ Carry(value)
  }

  lemma CarryLinear(a: bv8, b: bv8)
    ensures Carry(a ^ b) == Carry(a) ^ Carry(b)
  {
  }

  lemma ShiftLinear(a: bv8, b: bv8)
    ensures (a ^ b) << 1 == (a << 1) ^ (b << 1)
  {
  }

  lemma XtimeLinear(a: bv8, b: bv8)
    ensures Xtime(Add(a, b)) == Add(Xtime(a), Xtime(b))
  {
    hide Carry;
    CarryLinear(a, b);
    ShiftLinear(a, b);
  }

  lemma ShiftDecreases(b: bv8)
    requires b != 0
    ensures b >> 1 < b
  {
  }

  /** Addition in GF(2^8). */
  function Add(a: bv8, b: bv8): bv8 {
    a ^ b
  }

  function Add4(a: bv8, b: bv8, c: bv8, d: bv8): bv8 {
    a ^ b ^ c ^ d
  }

  lemma AddUnits(a: bv8)
    ensures Add(0, a) == a && Add(a, 0) == a && Add(a, a) == 0
  {
  }

  lemma AddAssociates(a: bv8, b: bv8, c: bv8)
    ensures Add(a, Add(b, c)) == Add(Add(a, b), c)
  {
  }

  lemma AddCommutes(a: bv8, b: bv8)
    ensures Add(a, b) == Add(b, a)
  {
  }

  lemma AddMiddle(a: bv8, b: bv8, c: bv8, d: bv8)
    ensures Add(Add(a, b), Add(c, d)) == Add(Add(a, c), Add(b, d))
  {
    hide Add;
    AddAssociates(Add(a, b), c, d);
    AddAssociates(a, b, c);
    AddCommutes(b, c);
    AddAssociates(a, c, b);
    AddAssociates(Add(a, c), b, d);
  }

  lemma AddTwice(a: bv8, b: bv8)
    ensures Add(Add(a, b), b) == a
  {
  }

  lemma AddFour(a: bv8, b: bv8, c: bv8, d: bv8)
    ensures Add4(a, b, c, d) == Add(Add(a, b), Add(c, d))
  {
  }

  // ----- the multiples that the column operations use -----

  function Times3(a: bv8): bv8 { Add(a, Xtime(a)) }

  function Times9(a: bv8): bv8 { Add(a, Xtime(Xtime(Xtime(a)))) }

  function Times11(a: bv8): bv8 { Add(a, Add(Xtime(a), Xtime(Xtime(Xtime(a))))) }

  function Times13(a: bv8): bv8 { Add(a, Add(Xtime(Xtime(a)), Xtime(Xtime(Xtime(a))))) }

  function Times14(a: bv8): bv8 { Add(Xtime(a), Add(Xtime(Xtime(a)), Xtime(Xtime(Xtime(a))))) }

  /** The inverse matrix times the matrix is the identity, one byte at a time. */
  lemma MatrixDiagonal(a: bv8)
    ensures Add4(Times14(Xtime(a)), Times11(a), Times13(a), Times9(Times3(a))) == a
    ensures Add4(Times14(a), Times11(Times3(a)), Times13(Xtime(a)), Times9(a)) == 0
  {
  }

  lemma MatrixOffDiagonal(a: bv8)
    ensures Add4(Times14(Times3(a)), Times11(Xtime(a)), Times13(a), Times9(a)) == 0
    ensures Add4(Times14(a), Times11(a), Times13(Times3(a)), Times9(Xtime(a))) == 0
  {
  }

  /** Four sums of four terms, added column by column instead of row by row. */
  lemma Transpose(p0: bv8, p1: bv8, p2: bv8, p3: bv8, q0: bv8, q1: bv8, q2: bv8, q3: bv8,
                  r0: bv8, r1: bv8, r2: bv8, r3: bv8, s0: bv8, s1: bv8, s2: bv8, s3: bv8)
    ensures Add4(Add4(p0, p1, p2, p3), Add4(q0, q1, q2, q3), Add4(r0, r1, r2, r3), Add4(s0, s1, s2, s3))
         == Add4(Add4(p0, q0, r0, s0), Add4(p1, q1, r1, s1), Add4(p2, q2, r2, s2), Add4(p3, q3, r3, s3))
  {
    hide *;
    var p01, p23, q01, q23 := Add(p0, p1), Add(p2, p3), Add(q0, q1), Add(q2, q3);
    var r01, r23, s01, s23 := Add(r0, r1), Add(r2, r3), Add(s0, s1), Add(s2, s3);
    AddFour(p0, p1, p2, p3);
    AddFour(q0, q1, q2, q3);
    AddFour(r0, r1, r2, r3);
    AddFour(s0, s1, s2, s3);
    AddFour(Add(p01, p23), Add(q01, q23), Add(r01, r23), Add(s01, s23));
    AddMiddle(p01, p23, q01, q23);
    AddMiddle(r01, r23, s01, s23);
    AddMiddle(Add(p01, q01), Add(p23, q23), Add(r01, s01), Add(r23, s23));
    TransposeTwo(p0, p1, q0, q1, r0, r1, s0, s1);
    TransposeTwo(p2, p3, q2, q3, r2, r3, s2, s3);
    AddFour(Add4(p0, q0, r0, s0), Add4(p1, q1, r1, s1), Add4(p2, q2, r2, s2), Add4(p3, q3, r3, s3));
  }

  lemma TransposeTwo(p0: bv8, p1: bv8, q0: bv8, q1: bv8, r0: bv8, r1: bv8, s0: bv8, s1: bv8)
    ensures Add(Add(Add(p0, p1), Add(q0, q1)), Add(Add(r0, r1), Add(s0, s1)))
         == Add(Add4(p0, q0, r0, s0), Add4(p1, q1, r1, s1))
  {
    hide *;
    AddMiddle(p0, p1, q0, q1);
    AddMiddle(r0, r1, s0, s1);
    AddMiddle(Add(p0, q0), Add(p1, q1), Add(r0, s0), Add(r1, s1));
    AddFour(p0, q0, r0, s0);
    AddFour(p1, q1, r1, s1);
  }

  lemma OneSurvives(a: bv8)
    ensures Add4(a, 0, 0, 0) == a && Add4(0, a, 0, 0) == a && Add4(0, 0, a, 0) == a && Add4(0, 0, 0, a) == a
  {
  }

  lemma Rotate(a: bv8, b: bv8, c: bv8, d: bv8)
    ensures Add4(a, b, c, d) == Add4(b, c, d, a)
  {
  }
}
