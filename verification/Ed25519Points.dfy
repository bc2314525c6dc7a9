/** The Ed25519 constants and the 32-byte form of its points, `src/ed25519.cpp`
    (sections 5.1.2 and 5.1.3 of RFC 8032). */
module Ed25519Points {
  import opened NumberTheory
  import opened Digits
  import opened Words256
  import opened PrimeField
  import opened Edwards
  import opened EdwardsExtended
  import opened Results
  import Jacobian
  import ByteLoops

  const P_WORDS: U256 := [0xFFFFFFED, 0xFFFFFFFF, 0xFFFFFFFF, 0xFFFFFFFF, 0xFFFFFFFF, 0xFFFFFFFF, 0xFFFFFFFF, 0x7FFFFFFF]
  const L_WORDS: U256 := [0x5CF5D3ED, 0x5812631A, 0xA2F79CD6, 0x14DEF9DE, 0x00000000, 0x00000000, 0x00000000, 0x10000000]
  const D_WORDS: U256 := [0x135978A3, 0x75EB4DCA, 0x4141D8AB, 0x00700A4D, 0x7779E898, 0x8CC74079, 0x2B6FFE73, 0x52036CEE]
  const SQRT_MINUS_ONE_WORDS: U256 := [0x4A0EA0B0, 0xC4EE1B27, 0xAD2FE478, 0x2F431806, 0x3DFBD7A7, 0x2B4D0099, 0x4FC1DF0B, 0x2B832480]
  const SQRT_EXPONENT_WORDS: U256 := [0xFFFFFFFE, 0xFFFFFFFF, 0xFFFFFFFF, 0xFFFFFFFF, 0xFFFFFFFF, 0xFFFFFFFF, 0xFFFFFFFF, 0x0FFFFFFF]
  const BX_WORDS: U256 := [0x8F25D51A, 0xC9562D60, 0x9525A7B2, 0x692CC760, 0xFDD6DC5C, 0xC0A4E231, 0xCD6E53FE, 0x216936D3]
  const BY_WORDS: U256 := [0x66666658, 0x66666666, 0x66666666, 0x66666666, 0x66666666, 0x66666666, 0x66666666, 0x66666666]

  const P: int := Spelled(P_WORDS)
  const L: int := Spelled(L_WORDS)
  const D: int := Spelled(D_WORDS)
  const SQRT_MINUS_ONE: int := Spelled(SQRT_MINUS_ONE_WORDS)
  const SQRT_EXPONENT: int := Spelled(SQRT_EXPONENT_WORDS)
  const BX: int := Spelled(BX_WORDS)
  const BY: int := Spelled(BY_WORDS)

  const CURVE: EdwardsCurve := EdwardsCurve(P, D, SQRT_MINUS_ONE)

  const B: EdPoint := EdPoint(BX, BY)

  /** The numbers of sections 5.1 and 5.1.3 of RFC 8032. */
  lemma ConstantValues()
    ensures P == 0x7FFFFFFFFFFFFFFFFFFFFFFFFFFFFFFFFFFFFFFFFFFFFFFFFFFFFFFFFFFFFFED
    ensures L == 0x1000000000000000000000000000000014DEF9DEA2F79CD65812631A5CF5D3ED
    ensures D == 0x52036CEE2B6FFE738CC740797779E89800700A4D4141D8AB75EB4DCA135978A3
    ensures SQRT_MINUS_ONE == 0x2B8324804FC1DF0B2B4D00993DFBD7A72F431806AD2FE478C4EE1B274A0EA0B0
    ensures SQRT_EXPONENT == 0x0FFFFFFFFFFFFFFFFFFFFFFFFFFFFFFFFFFFFFFFFFFFFFFFFFFFFFFFFFFFFFFE
    ensures BX == 0x216936D3CD6E53FEC0A4E231FDD6DC5C692CC7609525A7B2C9562D608F25D51A
    ensures BY == 0x6666666666666666666666666666666666666666666666666666666666666658
  {
    hide Val;
    SpelledIs(P_WORDS);
    SpelledIs(L_WORDS);
    SpelledIs(D_WORDS);
    SpelledIs(SQRT_MINUS_ONE_WORDS);
    SpelledIs(SQRT_EXPONENT_WORDS);
    SpelledIs(BX_WORDS);
    SpelledIs(BY_WORDS);
    hide Spelled;
    LimbsValue(P_WORDS);
    LimbsValue(L_WORDS);
    LimbsValue(D_WORDS);
    LimbsValue(SQRT_MINUS_ONE_WORDS);
    LimbsValue(SQRT_EXPONENT_WORDS);
    LimbsValue(BX_WORDS);
    LimbsValue(BY_WORDS);
  }

  /** Where the numbers come from (section 5.1 of RFC 8032): p = 2^255 - 19, L = 2^252 + c, d = -121665/121666,
      and the base point has the even x over y = 4/5. */
  lemma ConstantOrigins()
    ensures P == Pow(2, 255) - 19 && L == Pow(2, 252) + 27742317777372353535851937790883648493
    ensures 121666 * D + 121665 == 77955 * P
    ensures 5 * BY - 4 == 4 * P && BX % 2 == 0
  {
    ConstantValues();
    TopPower();
    TopBitPower();
    PowAdd(2, 3, 252);
    assert Pow(2, 3) == 8;
    hide Pow;
    hide Spelled;
  }

  /** All that the field arithmetic asks of the modulus. */
  lemma FieldFacts()
    ensures P > 2 && P % 8 == 5 && P % 2 == 1 && L > 0 && CURVE == EdwardsCurve(P, D, SQRT_MINUS_ONE) && B == EdPoint(BX, BY)
  {
    ConstantValues();
    hide Spelled;
  }

  // ----- d is not a square -----

  /** In a field with p = 5 mod 8, 2 has no square root: it would make i a square, and -1 a fourth power. */
  lemma TwoIsNotSquare(p: int, i: int)
    requires IsPrime(p) && p % 8 == 5 && Cong(i * i, -1, p)
    ensures !IsSquare(2, p)
  {
    if IsSquare(2, p) {
      var s :| SquareOf(s, 2, p);
      hide IsPrime;
      ModSmall(2, p);
      NonzeroProduct(p, s, s);
      CongMul(i, i, s * s, 2, p);
      CongAdd(i * i, -1, 1 + 2 * i, 1 + 2 * i, p);
      assert (1 + i) * (1 + i) == i * i + (1 + 2 * i);
      SquareRatio(1 + i, i, s, p);
      var t :| SquareOf(t, i, p);
      FourthPower(p, i, t);
    }
  }

  /** A square root t of i would have t^4 = -1, against Fermat, for (p - 1) / 4 is odd. */
  lemma FourthPower(p: int, i: int, t: int)
    requires IsPrime(p) && p % 8 == 5 && Cong(i * i, -1, p)
    ensures !Cong(t * t, i, p)
  {
    var m, f := (p - 5) / 8, t * t * (t * t);
    hide IsPrime;
    if Cong(t * t, i, p) {
      CongMul(t * t, i, t * t, i, p);
      PowerFour(t);
      CongPow(f, -1, 2 * m + 1, p);
      PowMul(t, 4, 2 * m + 1);
      MinusOneOddPower(m);
      assert p - 1 == 4 * (2 * m + 1);
      MinusOneNonzero(p, t, f);
      FermatLittle(p, t);
      OneIsNotMinusOne(p);
    }
  }

  lemma MinusOneOddPower(m: nat)
    ensures Pow(-1, 2 * m + 1) == -1
  {
    PowMul(-1, 2, m);
    PowOne(m);
    PowStep(-1, 2 * m);
    PowerTwo();
  }

  lemma PowerFour(t: int)
    ensures Pow(t, 4) == t * t * (t * t)
  {
    PowStep(t, 0);
    PowStep(t, 1);
    PowStep(t, 2);
    PowStep(t, 3);
    assert t * (t * (t * t)) == t * t * (t * t);
  }

  lemma PowerTwo()
    ensures Pow(-1, 2) == 1
  {
    PowStep(-1, 0);
    PowStep(-1, 1);
  }

  lemma MinusOneNonzero(p: int, t: int, f: int)
    requires IsPrime(p) && f == t * t * (t * t) && Cong(f, -1, p)
    ensures t % p != 0
  {
    ModAddMultiple(-1, 1, p);
    ModSmall(p - 1, p);
    NonzeroProduct(p, t * t, t * t);
    NonzeroProduct(p, t, t);
  }

  lemma OneIsNotMinusOne(p: int)
    requires p > 2
    ensures !Cong(1, -1, p)
  {
    CongDiff(1, -1, p);
    ModSmall(2, p);
  }

  /** d = 2 h^2, so d is not a square either. */
  lemma TwiceSquareIsNotSquare(p: int, i: int, d: int, h: int)
    requires IsPrime(p) && p % 8 == 5 && Cong(i * i, -1, p) && Cong(d, 2 * (h * h), p) && h % p != 0
    ensures !IsSquare(d, p)
  {
    TwoIsNotSquare(p, i);
    if IsSquare(d, p) {
      var x :| SquareOf(x, d, p);
      SquareRatio(x, 2, h, p);
    }
  }

  const HALF_D_ROOT_WORDS: U256 := [0xC8A14C58, 0xAE23BD0D, 0xD0E0AED6, 0xEDDB1FF0, 0x18255B5B, 0x8865A063, 0x7E856344, 0x3D567192]

  /** h with 2 h^2 = d. */
  const HALF_D_ROOT: int := Spelled(HALF_D_ROOT_WORDS)

  lemma HalfDRootValue()
    ensures HALF_D_ROOT == 0x3D5671927E8563448865A06318255B5BEDDB1FF0D0E0AED6AE23BD0DC8A14C58
  {
    hide Val;
    SpelledIs(HALF_D_ROOT_WORDS);
    hide Spelled;
    LimbsValue(HALF_D_ROOT_WORDS);
  }

  /** Primality of 2^255 - 19 is all that the curve facts need. */
  lemma CurveFacts()
    requires IsPrime(P)
    ensures IsEdwards(CURVE) && CURVE.p == P && P % 8 == 5
  {
    hide *;
    FieldFacts();
    RootOfMinusOne();
    HalfD();
    HalfDRootNonzero();
    TwiceSquareIsNotSquare(P, SQRT_MINUS_ONE, D, HALF_D_ROOT);
    CurveFactsFrom();
  }

  lemma CurveFactsFrom()
    requires IsPrime(P) && Cong(SQRT_MINUS_ONE * SQRT_MINUS_ONE, -1, P) && !IsSquare(D, P)
    ensures IsEdwards(CURVE) && CURVE.p == P
  {
    FieldFacts();
    hide Spelled;
    hide IsSquare;
    hide Cong;
    hide IsPrime;
  }

  lemma HalfDRootNonzero()
    ensures P > 0 && HALF_D_ROOT % P != 0
  {
    ConstantValues();
    HalfDRootValue();
    hide Spelled;
    ModSmall(HALF_D_ROOT, P);
  }

  lemma RootOfMinusOne()
    ensures P > 0 && Cong(SQRT_MINUS_ONE * SQRT_MINUS_ONE, -1, P)
  {
    ConstantValues();
    hide *;
    CongFrom(SQRT_MINUS_ONE * SQRT_MINUS_ONE, -1, P, 0xECAA2E2F6A2302CCEDB31AC05720688238CED2078F3EB0EC9F22E8F621972E5);
  }

  lemma HalfD()
    ensures P > 0 && Cong(D, 2 * (HALF_D_ROOT * HALF_D_ROOT), P)
  {
    ConstantValues();
    HalfDRootValue();
    hide *;
    CongFrom(D, 2 * (HALF_D_ROOT * HALF_D_ROOT), P, -0x3AC93D41446CE9CEAD6D821026412935074DC86D67E6C1826DBE0E6CE2F875B1);
  }

  // ----- the base point -----

  lemma BasePointEquation()
    ensures P > 0 && InField(P, BX) && InField(P, BY)
    ensures Cong(BY * BY - BX * BX, 1 + D * (BX * BX * (BY * BY)), P)
  {
    ConstantValues();
    hide Spelled;
    hide Cong;
    hide P;
    hide D;
    hide BX;
    hide BY;
    CongFrom(BY * BY - BX * BX, 1 + D * (BX * BX * (BY * BY)), P,
             -0x72705895B7FD68A9FA7924F5DBF66A83342931BFA505F5C01A65246A2283B5BDEFAC6A6F236898302E8ED7C7DF683605C40A4C5BAD89DCF0C8E913ECC5B282A35CFC55550DB4BE5E6BD6246E4A4EA2054904F5E4438FA42B0E56E116EA5951CFEB87ECFC5B550744D2C0FCA4A89EC707DE8B3C9A756EB80E7EC260DC2FDA59);
  }

  lemma BasePointOnCurve()
    ensures OnCurve(CURVE, B)
  {
    FieldFacts();
    BasePointEquation();
    hide Spelled;
    hide Cong;
  }

  // ----- little-endian strings -----

  function Reverse(s: seq<Byte>): (r: seq<Byte>)
    ensures |r| == |s|
  {
    seq(|s|, i requires 0 <= i < |s| => s[|s| - 1 - i])
  }

  lemma ReverseTwice(s: seq<Byte>)
    ensures Reverse(Reverse(s)) == s
  {
  }

  function FromLe(s: seq<Byte>): nat {
    Be(Reverse(s))
  }

  /** The little-endian encoding in exactly `len` bytes. */
  function ToLe(n: nat, len: nat): (s: seq<Byte>)
    ensures |s| == len
  {
    Reverse(ToBe(n, len))
  }

  lemma FromLeOfToLe(n: nat, len: nat)
    requires n < Pow(256, len)
    ensures FromLe(ToLe(n, len)) == n
  {
    ReverseTwice(ToBe(n, len));
    BeOfToBe(n, len);
  }

  lemma ToLeOfFromLe(s: seq<Byte>)
    ensures ToLe(FromLe(s), |s|) == s
  {
    ToBeOfBe(Reverse(s));
    ReverseTwice(s);
  }

  lemma FromLeBound(s: seq<Byte>)
    ensures FromLe(s) < Pow(256, |s|)
  {
    BeBound(Reverse(s));
  }

  /** The last byte is the most significant one. */
  lemma FromLeTop(s: seq<Byte>)
    requires |s| > 0
    ensures FromLe(s) == s[|s| - 1] * Pow(256, |s| - 1) + FromLe(s[..|s| - 1])
  {
    var n := |s| - 1;
    hide Be;
    hide Pow;
    ReverseTop(s);
    BeCons(s[n], Reverse(s[..n]));
  }

  lemma ReverseTop(s: seq<Byte>)
    requires |s| > 0
    ensures Reverse(s) == [s[|s| - 1]] + Reverse(s[..|s| - 1])
  {
  }

  lemma TopPower()
    ensures Pow(256, 31) == 0x100000000000000000000000000000000000000000000000000000000000000
    ensures 0 < P < 128 * Pow(256, 31)
  {
    PowAdd(256, 16, 15);
    PowAdd(256, 8, 8);
    PowAdd(256, 8, 7);
    PowAdd(256, 4, 4);
    PowAdd(256, 4, 3);
    assert Pow(256, 4) == 0x1_0000_0000 && Pow(256, 3) == 0x100_0000;
    hide Pow;
    ConstantValues();
    hide Spelled;
  }

  /** A field element leaves the top bit of its last byte clear. */
  lemma TopBitClear(s: seq<Byte>)
    requires |s| == 32 && FromLe(s) < P
    ensures s[31] < 0x80
  {
    FromLeTop(s);
    TopPower();
    hide FromLe;
    hide Pow;
    MulCancelLess(s[31], 128, Pow(256, 31));
  }

  lemma FieldFits(y: int)
    requires InField(P, y)
    ensures 0 <= y < Pow(256, 32)
  {
    TopPower();
    PowStep(256, 31);
  }

  // ----- encoding -----

  /** The 32 bytes of an affine point: y, with the parity of x in the top bit. */
  function Compress(q: EdPoint): seq<Byte>
    requires q.y >= 0
  {
    SetParity(ToLe(q.y, 32), q.x % 2 == 1)
  }

  /** `encoded.back() |= 0x80` when the parity is odd. */
  function SetParity(encoded: seq<Byte>, odd: bool): (r: seq<Byte>)
    requires |encoded| == 32
    ensures |r| == 32
  {
    if odd then encoded[31 := OrTopBit(encoded[31])] else encoded
  }

  function OrTopBit(b: Byte): Byte {
    SmallPowers();
    BitOrBound(b, 0x80, 8);
    BitOr(b, 0x80)
  }

  lemma SmallPowers()
    ensures Pow(2, 7) == 0x80 && Pow(2, 8) == 0x100
  {
  }

  lemma OrTopBitValue(b: Byte)
    ensures b < 0x80 ==> OrTopBit(b) == b + 0x80
  {
    SmallPowers();
    hide Pow;
    hide BitOr;
    if b < 0x80 {
      BitOrShifted(b, 1, 7);
    }
  }

  /** `encode_point`. */
  function EncodePoint(e: ExtendedPoint): seq<Byte> {
    var zInverse := FInv(P, e.z);
    var x := FMul(P, e.x, zInverse);
    var y := FMul(P, e.y, zInverse);
    SetParity(ToLe(y, 32), x % 2 == 1)
  }

  /** The bytes depend on the affine point only. */
  lemma EncodeIsCompress(e: ExtendedPoint, q: EdPoint)
    requires IsPrime(P) && OnCurve(CURVE, q) && Represents(CURVE, e, q)
    ensures EncodePoint(e) == Compress(q)
  {
    hide IsPrime;
    NonzeroInField(P, e.z);
    Divided(e.x, q.x, e.z);
    Divided(e.y, q.y, e.z);
    hide FInv;
    hide FMul;
    hide ToLe;
    hide SetParity;
  }

  lemma Divided(a: int, a': int, z: int)
    requires IsPrime(P) && InField(P, a') && z % P != 0 && Cong(a, a' * z, P)
    ensures FMul(P, a, FInv(P, z)) == a'
  {
    var i := FInv(P, z);
    FInvCorrect(P, z);
    hide FInv;
    hide IsPrime;
    FMulCong(P, a, a' * z, i, i);
    CongMul(a', a', z * i, 1, P);
    assert a' * z * i == a' * (z * i);
    FUnique(P, FMul(P, a, i), a');
  }

  /** What the bytes of a compressed point say. */
  lemma CompressParts(q: EdPoint)
    requires InField(P, q.y)
    ensures |Compress(q)| == 32
    ensures Compress(q)[31] >= 0x80 <==> q.x % 2 == 1
    ensures Compress(q)[31 := Compress(q)[31] % 0x80] == ToLe(q.y, 32)
    ensures FromLe(ToLe(q.y, 32)) == q.y
  {
    var le := ToLe(q.y, 32);
    FieldFits(q.y);
    FromLeOfToLe(q.y, 32);
    TopBitClear(le);
    ParityParts(le, q.x % 2 == 1);
    hide ToLe;
    hide FromLe;
    hide SetParity;
  }

  lemma ParityParts(le: seq<Byte>, odd: bool)
    requires |le| == 32 && le[31] < 0x80
    ensures SetParity(le, odd)[31] >= 0x80 <==> odd
    ensures SetParity(le, odd)[31 := SetParity(le, odd)[31] % 0x80] == le
  {
    OrTopBitValue(le[31]);
    hide OrTopBit;
    TopBitAdded(le[31]);
    var s := SetParity(le, odd);
    assert s[31 := le[31]] == le;
  }

  lemma TopBitAdded(b: Byte)
    requires b < 0x80
    ensures b % 0x80 == b && (b + 0x80) % 0x80 == b
  {
  }

  lemma TopBitPower()
    ensures Pow(2, 255) == 128 * Pow(256, 31)
  {
    ByteLoops.Pow256(31);
    PowAdd(2, 7, 248);
    assert Pow(2, 7) == 128;
  }

  /** The bytes as a little-endian number: y plus 2^255 times the parity of x. */
  lemma CompressNumber(q: EdPoint)
    requires OnCurve(CURVE, q)
    ensures q.y >= 0 && |Compress(q)| == 32 && FromLe(Compress(q)) == q.y + Pow(2, 255) * (q.x % 2)
  {
    hide *;
    InCurve(q);
    CompressParts(q);
    FieldFits(q.y);
    FromLeOfToLe(q.y, 32);
    var c := Compress(q);
    var y := c[31 := c[31] % 0x80];
    FromLeTop(c);
    FromLeTop(y);
    assert y[..31] == c[..31];
    TopBitPower();
    TopByteSplit(c[31], Pow(256, 31));
  }

  lemma TopByteSplit(b: Byte, p: int)
    ensures b * p == (b % 0x80) * p + (if b >= 0x80 then 128 * p else 0)
  {
    if b >= 0x80 {
      assert b == b % 0x80 + 128;
    }
  }

  /** Conversely, y and the parity determine the bytes. */
  lemma CompressFrom(encoded: seq<Byte>, q: EdPoint)
    requires |encoded| == 32 && q.y == FromLe(encoded[31 := encoded[31] % 0x80])
    requires q.x % 2 == 1 <==> encoded[31] >= 0x80
    ensures Compress(q) == encoded
  {
    var le := encoded[31 := encoded[31] % 0x80];
    ToLeOfFromLe(le);
    ParityBack(encoded, le);
    hide ToLe;
    hide FromLe;
    hide SetParity;
  }

  lemma ParityBack(encoded: seq<Byte>, le: seq<Byte>)
    requires |encoded| == 32 && le == encoded[31 := encoded[31] % 0x80]
    ensures SetParity(le, encoded[31] >= 0x80) == encoded
  {
    OrTopBitValue(le[31]);
    hide OrTopBit;
  }

  // ----- square roots -----

  /** For p = 5 mod 8 the power (p + 3) / 8 of a square, or that times sqrt(-1), is a root. */
  lemma RootOrCorrected(p: int, i: int, a: int, s: int)
    requires IsPrime(p) && p % 8 == 5 && Cong(i * i, -1, p) && Cong(s * s, a, p)
    ensures var x := Pow(a, (p + 3) / 8);
            Cong(x * x, a, p) || Cong(x * i * (x * i), a, p)
  {
    var m := (p - 5) / 8;
    assert p == 8 * m + 5 && (p + 3) / 8 == m + 1;
    hide *;
    var x, t := Pow(a, m + 1), Pow(a, 2 * m + 1);
    PowAdd(a, m + 1, m + 1);
    PowStep(a, 2 * m + 1);
    assert m + 1 + (m + 1) == 2 * m + 1 + 1;
    QuarterPower(p, a, s, m);
    if a % p != 0 {
      UnitSquareRoot(p, t);
      SignedRoot(p, i, a, x, t);
    } else {
      ZeroRoot(p, a, t);
    }
  }

  lemma ZeroRoot(p: int, a: int, t: int)
    requires p > 0 && a % p == 0
    ensures Cong(a * t, a, p)
  {
    ModSmall(0, p);
    CongMul(a, 0, t, t, p);
  }

  lemma SignedRoot(p: int, i: int, a: int, x: int, t: int)
    requires p > 0 && x * x == a * t && Cong(i * i, -1, p)
    ensures Cong(t, 1, p) ==> Cong(x * x, a, p)
    ensures Cong(t, -1, p) ==> Cong(x * i * (x * i), a, p)
  {
    if Cong(t, 1, p) {
      CongMul(a, a, t, 1, p);
    }
    if Cong(t, -1, p) {
      CongMul(a, a, t, -1, p);
      CongMul(a * t, a * -1, i * i, -1, p);
      assert a * -1 * -1 == a;
      MulSwap(x, i, x, i);
    }
  }

  lemma QuarterPower(p: int, a: int, s: int, m: nat)
    requires IsPrime(p) && p == 8 * m + 5 && Cong(s * s, a, p)
    ensures a % p != 0 ==> Cong(Pow(a, 2 * m + 1) * Pow(a, 2 * m + 1), 1, p)
  {
    hide IsPrime;
    if a % p != 0 {
      var k := 2 * m + 1;
      NonzeroProduct(p, s, s);
      CongPow(s * s, a, k + k, p);
      PowAdd(a, k, k);
      PowMul(s, 2, k + k);
      PowStep(s, 0);
      PowStep(s, 1);
      assert 2 * (k + k) == p - 1;
      FermatLittle(p, s);
    }
  }

  lemma DividesProductOf(p: int, a: int, b: int, f: int)
    requires IsPrime(p) && f == a * b && f % p == 0
    ensures a % p == 0 || b % p == 0
  {
    PrimeDividesProduct(p, a, b);
  }

  lemma UnitSquareRoot(p: int, t: int)
    requires IsPrime(p) && Cong(t * t, 1, p)
    ensures Cong(t, 1, p) || Cong(t, -1, p)
  {
    CongDiff(t * t, 1, p);
    var f := (t - 1) * (t + 1);
    assert f == t * t - 1;
    DividesProductOf(p, t - 1, t + 1, f);
    CongDiff(t, 1, p);
    CongDiff(t, -1, p);
  }

  // ----- decoding -----

  /** The quotient u / v = (y^2 - 1) / (d y^2 + 1) that x^2 has to equal. */
  function XSquared(y: int): int {
    var y2 := FMul(P, y, y);
    var u := FSub(P, y2, 1);
    var v := FAdd(P, FMul(P, D, y2), 1);
    FMul(P, u, FInv(P, v))
  }

  /** The power (p + 3) / 8, multiplied by sqrt(-1) when it does not square to the argument. */
  function CandidateRoot(x2: int): int {
    var root := Pow(x2, SQRT_EXPONENT) % P;
    if FMul(P, root, root) != x2 then FMul(P, root, SQRT_MINUS_ONE) else root
  }

  /** The root of the wanted parity. */
  function WithParity(p: int, x: int, odd: bool): int
    requires p > 0
  {
    if (x % 2 == 1) != odd then FSub(p, p, x) else x
  }

  /** `decode_point`. */
  function DecodePoint(encoded: seq<Byte>): Result<ExtendedPoint> {
    if |encoded| != 32 then Err(InvalidKey) else
      var xOdd := encoded[31] >= 0x80;
      var y := FromLe(encoded[31 := encoded[31] % 0x80]);
      if y >= P then Err(InvalidKey) else
        var x2 := XSquared(y);
        var x := CandidateRoot(x2);
        if FMul(P, x, x) != x2 then Err(InvalidKey)
        else if x == 0 && xOdd then Err(InvalidKey)
        else Ok(MakeAffinePoint(CURVE, WithParity(P, x, xOdd), y))
  }

  /** d y^2 + 1 is never zero, for then d = (sqrt(-1) / y)^2 would be a square. */
  lemma DenominatorNonzero(p: int, d: int, i: int, y: int)
    requires IsPrime(p) && Cong(i * i, -1, p) && !IsSquare(d, p)
    ensures (d * (y * y) + 1) % p != 0
  {
    EuclidFacts(p);
    hide IsPrime;
    ModSmall(0, p);
    if (d * (y * y) + 1) % p == 0 {
      CongSub(d * (y * y) + 1, 0, 1, 1, p);
      ZeroSquare(p, d, y);
      SquareRatio(i, d, y, p);
    }
  }

  lemma ZeroSquare(p: int, d: int, y: int)
    requires IsPrime(p) && Cong(d * (y * y), -1, p)
    ensures y % p != 0
  {
    ModAddMultiple(-1, 1, p);
    ModSmall(p - 1, p);
    NonzeroProduct(p, d, y * y);
    NonzeroProduct(p, y, y);
  }

  lemma NotSquare()
    requires IsEdwards(CURVE)
    ensures !IsSquare(D, P)
  {
  }

  /** For y in the field, x is on the curve over y exactly when x^2 is the quotient. */
  lemma CurveOverY(x: int, y: int)
    requires IsPrime(P)
    ensures Equation(CURVE, x, y) <==> Cong(x * x, XSquared(y), P)
  {
    hide IsPrime;
    var y2, w := FMul(P, y, y), y * y;
    var u, v := FSub(P, y2, 1), FAdd(P, FMul(P, D, y2), 1);
    FMulCong(P, y, y, y, y);
    FMulCong(P, D, D, y2, w);
    FSubCong(P, y2, w, 1, 1);
    FAddCong(P, FMul(P, D, y2), D * w, 1, 1);
    CurveFacts();
    RootOfMinusOne();
    NotSquare();
    DenominatorNonzero(P, D, SQRT_MINUS_ONE, y);
    CongNonzero(P, v, D * w + 1);
    FDivCorrect(P, u, v);
    CurveDivision(P, D, x * x, w, XSquared(y), u, v);
  }

  lemma CurveDivision(p: int, d: int, xx: int, w: int, q: int, u: int, v: int)
    requires IsPrime(p) && v % p != 0 && Cong(u, w - 1, p) && Cong(v, d * w + 1, p) && Cong(q * v, u, p)
    ensures Cong(w - xx, 1 + d * (xx * w), p) <==> Cong(xx, q, p)
  {
    EuclidFacts(p);
    hide IsPrime;
    hide Cong;
    CongSelf(xx, p);
    CongSelf(v, p);
    CongMul(xx, xx, v, d * w + 1, p);
    assert xx * (d * w + 1) == d * (xx * w) + xx;
    var z := d * (xx * w);
    if Cong(xx, q, p) {
      CongMul(xx, q, v, v, p);
      CongTrans(xx * v, q * v, u, p);
      CongTrans(xx * v, u, w - 1, p);
      CongSymmetric(xx * v, z + xx, p);
      CongTrans(z + xx, xx * v, w - 1, p);
      CongSelf(1 - xx, p);
      CongAdd(z + xx, w - 1, 1 - xx, 1 - xx, p);
      CongSymmetric(1 + z, w - xx, p);
    }
    if Cong(w - xx, 1 + z, p) {
      CongSelf(xx - 1, p);
      CongAdd(w - xx, 1 + z, xx - 1, xx - 1, p);
      CongTrans(q * v, u, w - 1, p);
      CongTrans(q * v, w - 1, z + xx, p);
      CongChain(xx * v, z + xx, q * v, p);
      assert v * xx == xx * v && v * q == q * v;
      PrimeCancel(p, v, xx, q);
    }
  }

  lemma EuclidFacts(p: int)
    requires IsPrime(p)
    ensures p > 1
  {
  }

  /** The candidate is a root whenever there is one. */
  lemma CandidateIsRoot(a: int, s: int)
    requires IsPrime(P) && InField(P, a) && Cong(s * s, a, P)
    ensures InField(P, CandidateRoot(a)) && FMul(P, CandidateRoot(a), CandidateRoot(a)) == a
  {
    CurveFacts();
    RootOfMinusOne();
    SqrtExponent();
    hide *;
    RootOrCorrected(P, SQRT_MINUS_ONE, a, s);
    CandidateCases(a, Pow(a, SQRT_EXPONENT));
  }

  lemma SqrtExponent()
    ensures SQRT_EXPONENT == (P + 3) / 8 && P > 2
  {
    ConstantValues();
    hide Spelled;
  }

  lemma CandidateCases(a: int, power: int)
    requires InField(P, a) && power == Pow(a, SQRT_EXPONENT) && P > 2
    requires Cong(power * power, a, P) || Cong(power * SQRT_MINUS_ONE * (power * SQRT_MINUS_ONE), a, P)
    ensures InField(P, CandidateRoot(a)) && FMul(P, CandidateRoot(a), CandidateRoot(a)) == a
  {
    hide *;
    var root, i := power % P, SQRT_MINUS_ONE;
    CandidateIs(a, power);
    ResidueInField(P, power, i);
    SquareOfResidue(P, power, a);
    FMulIs(P, root, i);
    SquareOfResidue(P, root * i, a);
    if Cong(power * i * (power * i), a, P) {
      ScaledResidue(P, power, i, a);
    }
  }

  lemma CandidateIs(a: int, power: int)
    requires power == Pow(a, SQRT_EXPONENT)
    ensures P > 0
    ensures var root := power % P;
            CandidateRoot(a) == if FMul(P, root, root) != a then FMul(P, root, SQRT_MINUS_ONE) else root
  {
    hide Pow;
    hide FMul;
  }

  lemma FMulIs(p: int, a: int, b: int)
    requires p > 0
    ensures FMul(p, a, b) == a * b % p
  {
  }

  lemma ResidueInField(p: int, a: int, b: int)
    requires p > 0
    ensures InField(p, a % p) && InField(p, FMul(p, a % p, b))
  {
  }

  lemma SquareOfResidue(p: int, power: int, a: int)
    requires p > 0 && InField(p, a)
    ensures FMul(p, power % p, power % p) == a <==> Cong(power * power, a, p)
  {
    CongMod(power, p);
    CongMul(power % p, power, power % p, power, p);
    ModSmall(a, p);
  }

  lemma ScaledResidue(p: int, power: int, i: int, a: int)
    requires p > 0 && Cong(power * i * (power * i), a, p)
    ensures Cong(power % p * i * (power % p * i), a, p)
  {
    CongMod(power, p);
    CongMul(power % p, power, i, i, p);
    CongMul(power % p * i, power * i, power % p * i, power * i, p);
  }

  /** Two roots of one square are equal or opposite, and of different parity if opposite. */
  lemma ParityDecides(p: int, x: int, r: int)
    requires IsPrime(p) && p % 2 == 1 && InField(p, x) && InField(p, r) && Cong(x * x, r * r, p)
    ensures WithParity(p, r, x % 2 == 1) == x
    ensures r == 0 ==> x == 0
  {
    Jacobian.OppositeOrEqual(p, x, r);
    EuclidFacts(p);
    hide *;
    ParityCases(p, x, r);
    if x != r {
      OppositeSum(p, x, r);
    }
  }

  lemma ParityCases(p: int, x: int, r: int)
    requires p > 0 && InField(p, r) && InField(p, x)
    ensures WithParity(p, r, x % 2 == 1) == if x % 2 == r % 2 then r else FSub(p, p, r)
    ensures 0 <= x < p && 0 <= r < p && (r != 0 ==> FSub(p, p, r) == p - r)
  {
    hide FSub;
    if r != 0 {
      NegatedResidue(p, r);
    }
  }

  lemma NegatedResidue(p: int, r: int)
    requires InField(p, r) && r != 0
    ensures FSub(p, p, r) == p - r
  {
    ModSmall(p - r, p);
  }

  lemma OppositeSum(p: int, x: int, r: int)
    requires p > 0 && InField(p, x) && InField(p, r) && FAdd(p, x, r) == 0 && x != r
    ensures x + r == p
  {
    ModSmall(x, p);
    ModSmall(r, p);
    if x + r < p {
      ModSmall(x + r, p);
    } else {
      ModAddMultiple(x + r, -1, p);
      ModSmall(x + r - p, p);
    }
  }

  lemma WithParityRoot(p: int, r: int, odd: bool)
    requires p > 0 && p % 2 == 1 && InField(p, r) && !(r == 0 && odd)
    ensures var x := WithParity(p, r, odd);
            InField(p, x) && (x % 2 == 1 <==> odd) && Cong(x * x, r * r, p)
  {
    hide Cong;
    hide FSub;
    CongSelf(r * r, p);
    if (r % 2 == 1) != odd {
      NegatedResidue(p, r);
      NegatedSquare(p, r);
    }
  }

  lemma NegatedSquare(p: int, r: int)
    requires p > 0
    ensures Cong((p - r) * (p - r), r * r, p)
  {
    assert (p - r) * (p - r) == r * r + (p - 2 * r) * p;
    CongFrom((p - r) * (p - r), r * r, p, p - 2 * r);
  }

  // ----- the encoding is a bijection -----

  /** decode(encode(P)): every point of the curve is recovered. */
  lemma DecodeOfCompress(q: EdPoint)
    requires IsPrime(P) && OnCurve(CURVE, q)
    ensures DecodePoint(Compress(q)) == Ok(MakeAffinePoint(CURVE, q.x, q.y))
  {
    CurveFacts();
    InCurve(q);
    hide *;
    CompressParts(q);
    CurveOverY(q.x, q.y);
    XSquaredInField(q.y);
    CandidateIsRoot(XSquared(q.y), q.x);
    var r := CandidateRoot(XSquared(q.y));
    RootsOfOne(q.x, r, XSquared(q.y));
    ParityDecides(P, q.x, r);
    DecodeCases(Compress(q), q);
  }

  lemma InCurve(q: EdPoint)
    requires OnCurve(CURVE, q)
    ensures InField(P, q.x) && InField(P, q.y) && q.y >= 0 && Equation(CURVE, q.x, q.y) && P % 2 == 1 && P > 2 && CURVE.p == P
  {
    FieldFacts();
    hide Equation;
    hide P;
    hide Spelled;
  }

  lemma XSquaredInField(y: int)
    ensures InField(P, XSquared(y))
  {
    hide FInv;
  }

  lemma RootsOfOne(x: int, r: int, a: int)
    requires Cong(x * x, a, P) && FMul(P, r, r) == a
    ensures Cong(x * x, r * r, P)
  {
    FMulIs(P, r, r);
    hide FMul;
    CongMod(r * r, P);
    hide Cong;
    CongTrans(x * x, a, r * r, P);
  }

  lemma DecodeCases(encoded: seq<Byte>, q: EdPoint)
    requires |encoded| == 32 && (encoded[31] >= 0x80 <==> q.x % 2 == 1) && 0 <= q.y < P
    requires FromLe(encoded[31 := encoded[31] % 0x80]) == q.y
    requires var r := CandidateRoot(XSquared(q.y));
             FMul(P, r, r) == XSquared(q.y) && WithParity(P, r, q.x % 2 == 1) == q.x && (r == 0 ==> q.x == 0)
    ensures DecodePoint(encoded) == Ok(MakeAffinePoint(CURVE, q.x, q.y))
  {
    hide CandidateRoot;
    hide XSquared;
    hide FMul;
    hide WithParity;
    hide FromLe;
  }

  /** Whatever is accepted is the encoding of the point of the curve it decodes to. */
  lemma CompressOfDecode(encoded: seq<Byte>) returns (q: EdPoint)
    requires IsPrime(P) && DecodePoint(encoded).Ok?
    ensures OnCurve(CURVE, q) && DecodePoint(encoded).value == MakeAffinePoint(CURVE, q.x, q.y)
    ensures Compress(q) == encoded
  {
    CurveFacts();
    var y := FromLe(encoded[31 := encoded[31] % 0x80]);
    var r := CandidateRoot(XSquared(y));
    q := EdPoint(WithParity(P, r, encoded[31] >= 0x80), y);
    AcceptedFacts(encoded, q, r);
    hide *;
    WithParityRoot(P, r, encoded[31] >= 0x80);
    RootsOfOne(r, r, XSquared(y)) by { SquareSelf(r, XSquared(y)); }
    SquareSelf(r, XSquared(y));
    CongTrans(q.x * q.x, r * r, XSquared(y), P);
    CurveOverY(q.x, q.y);
    IsOnCurve(q);
    CompressFrom(encoded, q);
  }

  lemma SquareSelf(r: int, a: int)
    requires FMul(P, r, r) == a
    ensures Cong(r * r, a, P)
  {
    FMulIs(P, r, r);
    hide FMul;
    CongMod(r * r, P);
    CongSymmetric(a, r * r, P);
  }

  lemma IsOnCurve(q: EdPoint)
    requires InField(P, q.x) && InField(P, q.y) && Equation(CURVE, q.x, q.y)
    ensures OnCurve(CURVE, q)
  {
    hide Equation;
  }

  lemma AcceptedFacts(encoded: seq<Byte>, q: EdPoint, r: int)
    requires DecodePoint(encoded).Ok?
    requires q.y == FromLe(encoded[31 := encoded[31] % 0x80]) && r == CandidateRoot(XSquared(q.y))
    requires q.x == WithParity(P, r, encoded[31] >= 0x80)
    ensures |encoded| == 32 && InField(P, q.y) && FMul(P, r, r) == XSquared(q.y)
    ensures !(r == 0 && encoded[31] >= 0x80) && InField(P, r) && P % 2 == 1 && P > 2
    ensures DecodePoint(encoded).value == MakeAffinePoint(CURVE, q.x, q.y)
  {
    CandidateInField(XSquared(q.y));
    FieldFacts();
    hide Spelled;
    hide CandidateRoot;
    hide XSquared;
    hide FMul;
    hide WithParity;
    hide FromLe;
  }

  lemma CandidateInField(a: int)
    ensures InField(P, CandidateRoot(a))
  {
    ResidueInField(P, Pow(a, SQRT_EXPONENT), SQRT_MINUS_ONE);
    hide Pow;
    hide FMul;
  }

  /** encode(decode(b)) = b. */
  lemma EncodeOfDecode(encoded: seq<Byte>)
    requires IsPrime(P) && DecodePoint(encoded).Ok?
    ensures EncodePoint(DecodePoint(encoded).value) == encoded && Valid(CURVE, DecodePoint(encoded).value)
  {
    CurveFacts();
    var q := CompressOfDecode(encoded);
    InCurve(q);
    hide *;
    AffineRepresents(CURVE, q);
    EncodeIsCompress(MakeAffinePoint(CURVE, q.x, q.y), q);
    RepresentsIsValid(CURVE, MakeAffinePoint(CURVE, q.x, q.y), q);
  }

  /** decode(encode(e)) succeeds and is the same projective point. */
  lemma DecodeOfEncode(e: ExtendedPoint)
    requires IsPrime(P) && Valid(CURVE, e)
    ensures DecodePoint(EncodePoint(e)).Ok? && PointsEqual(CURVE, DecodePoint(EncodePoint(e)).value, e)
  {
    CurveFacts();
    hide *;
    var q := ValidHasPoint(CURVE, e);
    InCurve(q);
    EncodeIsCompress(e, q);
    DecodeOfCompress(q);
    AffineRepresents(CURVE, q);
    EqualMeansSamePoint(CURVE, MakeAffinePoint(CURVE, q.x, q.y), e, q, q);
  }
}
