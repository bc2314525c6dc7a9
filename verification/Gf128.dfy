/** Multiplication in GF(2^128) on blocks, `src/aes_gcm.cpp`, and the polynomial product it computes
    (section 6.3 of NIST SP 800-38D). */
module Gf128 {
  import opened NumberTheory
  import P = Polynomials
  import opened AesBits
  import opened Aes
  import opened GcmBits

  // ----- congruence modulo the field polynomial -----

  /** x^128 + x^7 + x^2 + x + 1. */
  const MODULUS: nat := 0x1_00000000_00000000_00000000_00000087

  predicate QuotientOf(q: nat, a: nat, b: nat) {
    P.Multiply(q, MODULUS) == P.Xor(a, b)
  }

  ghost predicate Congruent(a: nat, b: nat) {
    exists q: nat :: QuotientOf(q, a, b)
  }

  lemma CongruentSelf(a: nat)
    ensures Congruent(a, a)
  {
    P.XorSelf(a);
    P.MultiplyZeroOne(MODULUS);
    hide P.Multiply;
    hide P.Xor;
    assert QuotientOf(0, a, a);
  }

  lemma CongruentTrans(a: nat, b: nat, c: nat)
    requires Congruent(a, b) && Congruent(b, c)
    ensures Congruent(a, c)
  {
    hide P.Multiply;
    hide P.Xor;
    var q: nat :| QuotientOf(q, a, b);
    var r: nat :| QuotientOf(r, b, c);
    P.MultiplyDistributesLeft(q, r, MODULUS);
    P.XorChain(a, b, c);
    assert QuotientOf(P.Xor(q, r), a, c);
  }

  lemma CongruentSymmetric(a: nat, b: nat)
    requires Congruent(a, b)
    ensures Congruent(b, a)
  {
    hide P.Multiply;
    hide P.Xor;
    var q: nat :| QuotientOf(q, a, b);
    P.XorCommutes(a, b);
    assert QuotientOf(q, b, a);
  }

  lemma CongruentXor(a: nat, a': nat, b: nat, b': nat)
    requires Congruent(a, a') && Congruent(b, b')
    ensures Congruent(P.Xor(a, b), P.Xor(a', b'))
  {
    hide P.Multiply;
    hide P.Xor;
    var q: nat :| QuotientOf(q, a, a');
    var r: nat :| QuotientOf(r, b, b');
    P.MultiplyDistributesLeft(q, r, MODULUS);
    P.XorMiddle(a, b, a', b');
    assert QuotientOf(P.Xor(q, r), P.Xor(a, b), P.Xor(a', b'));
  }

  lemma CongruentDouble(a: nat, b: nat)
    requires Congruent(a, b)
    ensures Congruent(2 * a, 2 * b)
  {
    hide P.Multiply;
    hide P.Xor;
    var q: nat :| QuotientOf(q, a, b);
    P.MultiplyDoubleLeft(q, MODULUS);
    P.XorDouble(a, b);
    assert QuotientOf(2 * q, 2 * a, 2 * b);
  }

  /** Polynomials of degree below 128 represent different residues. */
  lemma CongruentUnique(a: nat, b: nat)
    requires Congruent(a, b) && a < Pow(2, 128) && b < Pow(2, 128)
    ensures a == b
  {
    hide P.Multiply;
    hide P.Xor;
    var q: nat :| QuotientOf(q, a, b);
    P.XorBelow(a, b, 128);
    if q > 0 {
      MultipleIsLarge(q);
    }
    P.MultiplyZeroOne(MODULUS);
    P.XorEqual(a, b);
  }

  lemma MultipleIsLarge(q: nat)
    requires q > 0
    ensures P.Multiply(q, MODULUS) >= Pow(2, 128)
  {
    var k := Degree(q);
    ModulusDegree();
    P.ProductDegree(q, MODULUS, k, 128);
    PowMonotone(2, 128, k + 128);
  }

  lemma Degree(q: nat) returns (k: nat)
    requires q > 0
    ensures Pow(2, k) <= q < Pow(2, k + 1)
  {
    if q == 1 {
      k := 0;
      PowStep(2, 0);
    } else {
      var h := Degree(q / 2);
      k := h + 1;
      PowStep(2, h);
      PowStep(2, h + 1);
    }
  }

  lemma ModulusDegree()
    ensures Pow(2, 128) + 0x87 == MODULUS && MODULUS < Pow(2, 129)
  {
    PowAdd(2, 8, 8);
    PowAdd(2, 16, 16);
    PowAdd(2, 32, 32);
    PowAdd(2, 64, 64);
    PowStep(2, 128);
    assert Pow(2, 8) == 0x100;
    hide Pow;
  }

  // ----- blocks as polynomials -----

  function BitAt(block: Block, bit: nat): bool
    requires bit < 128
  {
    BitOf(block[bit / 8], bit % 8)
  }

  function Bits(block: Block): (bits: seq<bool>)
    ensures |bits| == 128
  {
    seq(128, i requires 0 <= i < 128 => BitAt(block, i))
  }

  /** The polynomial with these coefficients, lowest first. */
  function PolyOf(bits: seq<bool>): nat {
    if bits == [] then 0 else (if bits[0] then 1 else 0) + 2 * PolyOf(bits[1..])
  }

  function Poly(block: Block): nat {
    PolyOf(Bits(block))
  }

  lemma {:induction false} PolyBound(bits: seq<bool>)
    ensures PolyOf(bits) < Pow(2, |bits|)
    decreases |bits|
  {
    if bits != [] {
      PolyBound(bits[1..]);
      PowStep(2, |bits| - 1);
    }
  }

  lemma {:induction false} PolyInjective(s: seq<bool>, t: seq<bool>)
    requires |s| == |t| && PolyOf(s) == PolyOf(t)
    ensures s == t
    decreases |s|
  {
    if s != [] {
      PolyInjective(s[1..], t[1..]);
      assert s == [s[0]] + s[1..] && t == [t[0]] + t[1..];
    }
  }

  /** Bit i of a block, counted from the top bit of its first byte, is the coefficient of x^i. */
  lemma PolyCoefficient(block: Block, i: nat)
    requires i < 128
    ensures Pow(2, i) > 0 && (Poly(block) / Pow(2, i)) % 2 == if BitOf(block[i / 8], i % 8) then 1 else 0
  {
    hide BitOf;
    CoefficientOf(Bits(block), i);
  }

  lemma {:induction false} CoefficientOf(bits: seq<bool>, i: nat)
    requires i < |bits|
    ensures Pow(2, i) > 0 && (PolyOf(bits) / Pow(2, i)) % 2 == if bits[i] then 1 else 0
    decreases i
  {
    PowPositive(2, i);
    if i > 0 {
      CoefficientOf(bits[1..], i - 1);
      PowStep(2, i - 1);
      PowPositive(2, i - 1);
      DivDiv(PolyOf(bits), 2, Pow(2, i - 1));
    }
  }

  lemma {:induction false} PolySnoc(s: seq<bool>, b: bool)
    ensures PolyOf(s + [b]) == PolyOf(s) + (if b then Pow(2, |s|) else 0)
    decreases |s|
  {
    if s == [] {
      assert [] + [b] == [b] && [b][1..] == [];
    } else {
      PolySnoc(s[1..], b);
      assert (s + [b])[1..] == s[1..] + [b];
      PowStep(2, |s| - 1);
    }
  }

  function XorBits(s: seq<bool>, t: seq<bool>): (r: seq<bool>)
    requires |s| == |t|
    ensures |r| == |s|
  {
    seq(|s|, i requires 0 <= i < |s| && |s| == |t| => s[i] != t[i])
  }

  lemma PolyHeadTail(s: seq<bool>)
    requires s != []
    ensures PolyOf(s) % 2 == (if s[0] then 1 else 0) && PolyOf(s) / 2 == PolyOf(s[1..])
  {
  }

  lemma {:induction false} PolyOfXor(s: seq<bool>, t: seq<bool>)
    requires |s| == |t|
    ensures PolyOf(XorBits(s, t)) == P.Xor(PolyOf(s), PolyOf(t))
    decreases |s|
  {
    if s == [] {
      P.XorZero(0);
    } else {
      PolyOfXor(s[1..], t[1..]);
      hide *;
      var r := XorBits(s, t);
      XorBitsTail(s, t);
      PolyHeadTail(s);
      PolyHeadTail(t);
      PolyHeadTail(r);
      P.XorStep(PolyOf(s), PolyOf(t));
      ParityOfSum(PolyOf(s), PolyOf(t), s[0], t[0]);
      P.HalfAndBit(PolyOf(r), P.Xor(PolyOf(s), PolyOf(t)));
    }
  }

  lemma ParityOfSum(a: nat, b: nat, x: bool, y: bool)
    requires a % 2 == (if x then 1 else 0) && b % 2 == (if y then 1 else 0)
    ensures (a + b) % 2 == if x != y then 1 else 0
  {
  }

  lemma XorBitsTail(s: seq<bool>, t: seq<bool>)
    requires |s| == |t| && s != []
    ensures XorBits(s, t)[0] == (s[0] != t[0]) && XorBits(s, t)[1..] == XorBits(s[1..], t[1..])
  {
  }

  /** Equal polynomials are equal blocks. */
  lemma PolyDetermines(a: Block, b: Block)
    requires Poly(a) == Poly(b)
    ensures a == b
  {
    PolyInjective(Bits(a), Bits(b));
    hide BitOf;
    hide PolyOf;
    forall i | 0 <= i < 16
      ensures a[i] == b[i]
    {
      SameByte(a, b, i);
    }
  }

  lemma SameByte(a: Block, b: Block, i: nat)
    requires i < 16 && Bits(a) == Bits(b)
    ensures a[i] == b[i]
  {
    hide BitOf;
    forall j | 0 <= j < 8
      ensures BitOf(a[i], j) == BitOf(b[i], j)
    {
      assert (8 * i + j) / 8 == i && (8 * i + j) % 8 == j;
      assert Bits(a)[8 * i + j] == Bits(b)[8 * i + j];
    }
    BitsDetermine(a[i], b[i]);
  }

  lemma PolyOfXorBlock(a: Block, b: Block)
    ensures Poly(XorBlock(a, b)) == P.Xor(Poly(a), Poly(b))
  {
    PolyOfXor(Bits(a), Bits(b));
    hide PolyOf;
    hide P.Xor;
    XorBlockBits(a, b);
  }

  lemma XorBlockBits(a: Block, b: Block)
    ensures Bits(XorBlock(a, b)) == XorBits(Bits(a), Bits(b))
  {
    hide BitOf;
    forall i | 0 <= i < 128
      ensures BitAt(XorBlock(a, b), i) == (BitAt(a, i) != BitAt(b, i))
    {
      BitOfXor(a[i / 8], b[i / 8], i % 8);
    }
  }

  // ----- one step: multiplication by x -----

  function CarryIn(s: Block, i: nat): bv8
    requires i <= 16
  {
    if i == 0 then 0 else s[i - 1] & 1
  }

  /** The shift of the code: every coefficient moves up by one, the last is lost. */
  function ShiftRight(s: Block): Block {
    seq(16, i requires 0 <= i < 16 => ShiftByte(s[i], CarryIn(s, i)))
  }

  function ReductionBlock(): Block {
    [0xe1, 0, 0, 0, 0, 0, 0, 0, 0, 0, 0, 0, 0, 0, 0, 0]
  }

  /** Shift, then subtract the field polynomial if a coefficient of x^128 appeared. */
  function TimesX(v: Block): Block {
    if v[15] & 1 != 0 then XorBlock(ShiftRight(v), ReductionBlock()) else ShiftRight(v)
  }

  lemma ShiftRightBits(v: Block)
    ensures Bits(ShiftRight(v)) == [false] + Bits(v)[..127]
  {
    hide BitOf;
    hide ShiftByte;
    forall i | 0 <= i < 128
      ensures BitAt(ShiftRight(v), i) == if i == 0 then false else BitAt(v, i - 1)
    {
      ShiftedBit(v, i);
    }
  }

  lemma ShiftedBit(v: Block, i: nat)
    requires i < 128
    ensures BitAt(ShiftRight(v), i) == if i == 0 then false else BitAt(v, i - 1)
  {
    hide BitOf;
    hide ShiftByte;
    var byte, j := i / 8, i % 8;
    if byte == 0 {
      NoCarry(v[0], j);
    } else {
      BitOfShift(v[byte], v[byte - 1], j);
    }
    if j == 0 && byte > 0 {
      assert (i - 1) / 8 == byte - 1 && (i - 1) % 8 == 7;
    }
    if j > 0 {
      assert (i - 1) / 8 == byte && (i - 1) % 8 == j - 1;
    }
  }

  /** 2 P(v) is the shifted polynomial plus the lost term. */
  lemma ShiftDoubles(v: Block)
    ensures 2 * Poly(v) == Poly(ShiftRight(v)) + (if BitAt(v, 127) then Pow(2, 128) else 0)
    ensures Poly(ShiftRight(v)) < Pow(2, 128)
  {
    hide *;
    var bits := Bits(v);
    ShiftRightBits(v);
    PolyIs(v);
    PolyIs(ShiftRight(v));
    PolyBound(Bits(ShiftRight(v)));
    assert bits == bits[..127] + [bits[127]];
    PolySnoc(bits[..127], bits[127]);
    PolyFalse(bits[..127]);
    PowStep(2, 127);
    BitsAt(v, 127);
  }

  lemma PolyIs(v: Block)
    ensures Poly(v) == PolyOf(Bits(v))
  {
  }

  lemma PolyFalse(s: seq<bool>)
    ensures PolyOf([false] + s) == 2 * PolyOf(s)
  {
    assert ([false] + s)[1..] == s;
  }

  lemma BitsAt(v: Block, i: nat)
    requires i < 128
    ensures Bits(v)[i] == BitAt(v, i)
  {
    hide BitAt;
  }

  lemma {:induction false} PolyOfZeros(s: seq<bool>)
    requires forall i :: 0 <= i < |s| ==> !s[i]
    ensures PolyOf(s) == 0
    decreases |s|
  {
    if s != [] {
      PolyOfZeros(s[1..]);
    }
  }

  lemma ReductionPoly()
    ensures Poly(ReductionBlock()) == 0x87
  {
    hide PolyOf;
    var r := ReductionBlock();
    ReductionByte();
    hide BitOf;
    var bits := Bits(r);
    assert bits[..8] == [true, true, true, false, false, false, false, true];
    forall i | 8 <= i < 128
      ensures !bits[i]
    {
      ZeroByte(i % 8);
    }
    LowByte(bits);
  }

  lemma LowByte(bits: seq<bool>)
    requires |bits| == 128 && bits[..8] == [true, true, true, false, false, false, false, true]
    requires forall i :: 8 <= i < 128 ==> !bits[i]
    ensures PolyOf(bits) == 0x87
  {
    hide PolyOf;
    PolyOfZeros(bits[8..]);
    PeelBit(bits, 7);
    PeelBit(bits, 6);
    PeelBit(bits, 5);
    PeelBit(bits, 4);
    PeelBit(bits, 3);
    PeelBit(bits, 2);
    PeelBit(bits, 1);
    PeelBit(bits, 0);
    assert bits[0..] == bits;
    assert forall i :: 0 <= i < 8 ==> bits[i] == bits[..8][i];
  }

  lemma PeelBit(bits: seq<bool>, i: nat)
    requires i < |bits|
    ensures PolyOf(bits[i..]) == (if bits[i] then 1 else 0) + 2 * PolyOf(bits[i + 1..])
  {
    assert bits[i..][1..] == bits[i + 1..];
  }

  lemma TimesXIsDouble(v: Block)
    ensures Congruent(Poly(TimesX(v)), 2 * Poly(v))
  {
    hide *;
    var s := ShiftRight(v);
    ShiftDoubles(v);
    TimesXIs(v);
    if BitAt(v, 127) {
      PolyOfXorBlock(s, ReductionBlock());
      ReductionPoly();
      LostTerm(Poly(s), 2 * Poly(v));
    } else {
      CongruentSelf(2 * Poly(v));
    }
  }

  lemma TimesXIs(v: Block)
    ensures TimesX(v) == if BitAt(v, 127) then XorBlock(ShiftRight(v), ReductionBlock()) else ShiftRight(v)
  {
    hide BitOf;
    hide XorBlock;
    hide ShiftRight;
    LowBit(v[15]);
  }

  lemma LostTerm(s: nat, d: nat)
    requires s < Pow(2, 128) && d == s + Pow(2, 128)
    ensures Congruent(P.Xor(s, 0x87), d)
  {
    hide P.Multiply;
    hide P.Xor;
    hide Pow;
    P.XorTerm(s, 128);
    ModulusDegree();
    LowTerms();
    P.XorTerm(0x87, 128);
    P.XorMiddle(s, 0x87, s, Pow(2, 128));
    P.XorSelf(s);
    P.XorZero(P.Xor(0x87, Pow(2, 128)));
    P.MultiplyZeroOne(MODULUS);
    assert QuotientOf(1, P.Xor(s, 0x87), d);
  }

  lemma LowTerms()
    ensures 0x87 < Pow(2, 128)
  {
    PowMonotone(2, 8, 128);
    assert Pow(2, 8) == 0x100;
  }

  // ----- the product -----

  function ZeroBlock(): Block {
    [0, 0, 0, 0, 0, 0, 0, 0, 0, 0, 0, 0, 0, 0, 0, 0]
  }

  /** y times x^k, and the sum of those with a coefficient in x, as the loop holds them after k bits. */
  function Multiple(y: Block, k: nat): Block {
    if k == 0 then y else TimesX(Multiple(y, k - 1))
  }

  function Partial(x: Block, y: Block, k: nat): Block
    requires k <= 128
  {
    if k == 0 then ZeroBlock()
    else if BitAt(x, k - 1) then XorBlock(Partial(x, y, k - 1), Multiple(y, k - 1))
    else Partial(x, y, k - 1)
  }

  function GfProduct(x: Block, y: Block): Block {
    Partial(x, y, 128)
  }

  lemma {:induction false} MultipleIs(y: Block, k: nat)
    ensures Congruent(Poly(Multiple(y, k)), P.Multiply(Poly(y), PowerOfX(k)))
    decreases k
  {
    hide *;
    MultipleStep(y, k);
    PowerStep(k);
    if k == 0 {
      P.MultiplyOne(Poly(y));
      CongruentSelf(Poly(y));
    } else {
      MultipleIs(y, k - 1);
      TimesXIsDouble(Multiple(y, k - 1));
      CongruentDouble(Poly(Multiple(y, k - 1)), P.Multiply(Poly(y), PowerOfX(k - 1)));
      P.MultiplyDouble(Poly(y), PowerOfX(k - 1));
      CongruentTrans(Poly(Multiple(y, k)), 2 * Poly(Multiple(y, k - 1)), P.Multiply(Poly(y), PowerOfX(k)));
    }
  }

  function PowerOfX(k: nat): nat {
    PowPositive(2, k);
    Pow(2, k)
  }

  lemma PowerStep(k: nat)
    ensures PowerOfX(0) == 1 && (k > 0 ==> PowerOfX(k) == 2 * PowerOfX(k - 1)) && PowerOfX(k) == Pow(2, k)
  {
  }

  lemma MultipleStep(y: Block, k: nat)
    ensures Multiple(y, k) == if k == 0 then y else TimesX(Multiple(y, k - 1))
  {
    hide TimesX;
  }

  lemma PartialStep(x: Block, y: Block, k: nat)
    requires k <= 128
    ensures Partial(x, y, k)
         == if k == 0 then ZeroBlock()
            else if BitAt(x, k - 1) then XorBlock(Partial(x, y, k - 1), Multiple(y, k - 1))
            else Partial(x, y, k - 1)
  {
    hide Multiple;
    hide XorBlock;
    hide BitAt;
    hide ZeroBlock;
  }

  lemma ZeroPoly()
    ensures Poly(ZeroBlock()) == 0
  {
    hide PolyOf;
    forall i | 0 <= i < 128
      ensures !Bits(ZeroBlock())[i]
    {
      ZeroByte(i % 8);
    }
    PolyOfZeros(Bits(ZeroBlock()));
  }

  lemma {:induction false} PartialIs(x: Block, y: Block, k: nat)
    requires k <= 128
    ensures Congruent(Poly(Partial(x, y, k)), P.Multiply(Poly(y), PolyOf(Bits(x)[..k])))
    decreases k
  {
    hide *;
    PartialStep(x, y, k);
    if k == 0 {
      ZeroPoly();
      EmptyPoly(Bits(x)[..0]);
      P.MultiplyStep(Poly(y), 0);
      CongruentSelf(0);
    } else {
      PartialIs(x, y, k - 1);
      BitsAt(x, k - 1);
      var low := Bits(x)[..k - 1];
      assert Bits(x)[..k] == low + [Bits(x)[k - 1]];
      PolySnoc(low, Bits(x)[k - 1]);
      PolyBound(low);
      PowerStep(k - 1);
      if BitAt(x, k - 1) {
        P.XorTerm(PolyOf(low), k - 1);
        P.MultiplyDistributes(Poly(y), PolyOf(low), PowerOfX(k - 1));
        MultipleIs(y, k - 1);
        PolyOfXorBlock(Partial(x, y, k - 1), Multiple(y, k - 1));
        CongruentXor(Poly(Partial(x, y, k - 1)), P.Multiply(Poly(y), PolyOf(low)),
                     Poly(Multiple(y, k - 1)), P.Multiply(Poly(y), PowerOfX(k - 1)));
      }
    }
  }

  lemma EmptyPoly(s: seq<bool>)
    requires |s| == 0
    ensures PolyOf(s) == 0
  {
  }

  /** The blocks computed are the products of the polynomials, reduced to degree below 128. */
  lemma GfProductIsProduct(x: Block, y: Block)
    ensures Congruent(Poly(GfProduct(x, y)), P.Multiply(Poly(x), Poly(y)))
    ensures Poly(GfProduct(x, y)) < Pow(2, 128)
  {
    hide *;
    PartialIs(x, y, 128);
    assert Bits(x)[..128] == Bits(x);
    PolyIs(x);
    PolyIs(GfProduct(x, y));
    PolyBound(Bits(GfProduct(x, y)));
    GfProductIs(x, y);
    P.MultiplyCommutes(Poly(x), Poly(y));
  }

  lemma GfProductIs(x: Block, y: Block)
    ensures GfProduct(x, y) == Partial(x, y, 128)
  {
  }

  /** Any block with the right residue is the product. */
  lemma ProductUnique(z: Block, x: Block, y: Block)
    requires Congruent(Poly(z), P.Multiply(Poly(x), Poly(y)))
    ensures z == GfProduct(x, y)
  {
    hide *;
    GfProductIsProduct(x, y);
    CongruentSymmetric(Poly(GfProduct(x, y)), P.Multiply(Poly(x), Poly(y)));
    CongruentTrans(Poly(z), P.Multiply(Poly(x), Poly(y)), Poly(GfProduct(x, y)));
    PolyIs(z);
    PolyBound(Bits(z));
    CongruentUnique(Poly(z), Poly(GfProduct(x, y)));
    PolyDetermines(z, GfProduct(x, y));
  }

  lemma GfCommutes(x: Block, y: Block)
    ensures GfProduct(x, y) == GfProduct(y, x)
  {
    hide *;
    GfProductIsProduct(x, y);
    P.MultiplyCommutes(Poly(x), Poly(y));
    ProductUnique(GfProduct(x, y), y, x);
  }

  lemma GfDistributes(x: Block, x': Block, y: Block)
    ensures GfProduct(XorBlock(x, x'), y) == XorBlock(GfProduct(x, y), GfProduct(x', y))
    ensures GfProduct(y, XorBlock(x, x')) == XorBlock(GfProduct(y, x), GfProduct(y, x'))
  {
    hide *;
    GfProductIsProduct(x, y);
    GfProductIsProduct(x', y);
    PolyOfXorBlock(x, x');
    PolyOfXorBlock(GfProduct(x, y), GfProduct(x', y));
    P.MultiplyDistributesLeft(Poly(x), Poly(x'), Poly(y));
    CongruentXor(Poly(GfProduct(x, y)), P.Multiply(Poly(x), Poly(y)), Poly(GfProduct(x', y)), P.Multiply(Poly(x'), Poly(y)));
    ProductUnique(XorBlock(GfProduct(x, y), GfProduct(x', y)), XorBlock(x, x'), y);
    GfCommutes(XorBlock(x, x'), y);
    GfCommutes(x, y);
    GfCommutes(x', y);
  }

  // ----- the loop -----

  method XorInto(lhs: array<bv8>, rhs: Block)
    requires lhs.Length == 16
    modifies lhs
    ensures lhs[..] == XorBlock(old(lhs[..]), rhs)
  {
    hide Add;
    ghost var before := lhs[..];
    for i := 0 to 16
      invariant forall k :: 0 <= k < i ==> lhs[k] == Add(before[k], rhs[k])
      invariant forall k :: i <= k < 16 ==> lhs[k] == before[k]
    {
      lhs[i] := Add(lhs[i], rhs[i]);
    }
  }

  method ShiftRightOne(block: array<bv8>)
    requires block.Length == 16
    modifies block
    ensures block[..] == ShiftRight(old(block[..]))
  {
    hide ShiftByte;
    hide CarryIn;
    ghost var before := block[..];
    var carry: bv8 := 0;
    CarryStep(before, 0);
    for i := 0 to 16
      invariant carry == CarryIn(before, i)
      invariant forall k :: 0 <= k < i ==> block[k] == ShiftByte(before[k], CarryIn(before, k))
      invariant forall k :: i <= k < 16 ==> block[k] == before[k]
    {
      CarryStep(before, i + 1);
      var nextCarry := block[i] & 1;
      block[i] := ShiftByte(block[i], carry);
      carry := nextCarry;
    }
  }

  lemma CarryStep(s: Block, i: nat)
    requires i <= 16
    ensures CarryIn(s, i) == if i == 0 then 0 else s[i - 1] & 1
  {
  }

  method MultiplyByX(v: array<bv8>)
    requires v.Length == 16
    modifies v
    ensures v[..] == TimesX(old(v[..]))
  {
    hide ShiftRight;
    hide XorBlock;
    var lsb := v[15] & 1 != 0;
    ShiftRightOne(v);
    if lsb {
      ghost var shifted := v[..];
      v[0] := Add(v[0], 0xe1);
      FirstByte(shifted, v[..]);
    }
  }

  lemma FirstByte(s: Block, t: Block)
    requires t == s[0 := Add(s[0], 0xe1)]
    ensures t == XorBlock(s, ReductionBlock())
  {
    hide Add;
    forall i | 1 <= i < 16
      ensures Add(s[i], 0) == s[i]
    {
      AddUnits(s[i]);
    }
  }

  method GfMultiply(x: Block, y: Block) returns (r: Block)
    ensures r == GfProduct(x, y)
  {
    hide *;
    var z := CopyBlock(ZeroBlock());
    var v := CopyBlock(y);
    PartialStep(x, y, 0);
    MultipleStep(y, 0);
    for bit := 0 to 128
      invariant fresh(z) && fresh(v) && z != v && z.Length == 16 && v.Length == 16
      invariant z[..] == Partial(x, y, bit) && v[..] == Multiple(y, bit)
    {
      PartialStep(x, y, bit + 1);
      MultipleStep(y, bit + 1);
      if BitAt(x, bit) {
        XorInto(z, v[..]);
      }
      MultiplyByX(v);
    }
    GfProductIs(x, y);
    r := z[..];
  }
}
