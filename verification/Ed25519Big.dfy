/** The field, point and scalar helpers of `src/ed25519.cpp`, carried out on arbitrary-length integers. */
module Ed25519Big {
  import opened NumberTheory
  import opened Digits
  import opened Words256
  import opened BigInt
  import opened BigField
  import opened PrimeField
  import opened Edwards
  import opened EdwardsExtended
  import opened Ed25519Points
  import opened Results
  import BigIntPower

  // ----- the field -----

  const INVERSE_EXPONENT_WORDS: U256 := [0xFFFFFFEB, 0xFFFFFFFF, 0xFFFFFFFF, 0xFFFFFFFF, 0xFFFFFFFF, 0xFFFFFFFF, 0xFFFFFFFF, 0x7FFFFFFF]

  lemma FieldConstants()
    ensures P == Spelled(P_WORDS) > 2 && Spelled(INVERSE_EXPONENT_WORDS) == P - 2
    ensures D == Spelled(D_WORDS) && L == Spelled(L_WORDS) > 0 && SQRT_MINUS_ONE == Spelled(SQRT_MINUS_ONE_WORDS)
    ensures SQRT_EXPONENT == Spelled(SQRT_EXPONENT_WORDS) && CURVE.p == P && CURVE.d == D
  {
    FieldFacts();
    ConstantValues();
    SpelledIs(INVERSE_EXPONENT_WORDS);
    hide Val;
    hide Spelled;
    LimbsValue(INVERSE_EXPONENT_WORDS);
  }

  method FieldAdd(lhs: Big, rhs: Big) returns (r: Big)
    ensures P > 1 && r.Value() == FAdd(P, lhs.Value(), rhs.Value())
  {
    hide *;
    FieldConstants();
    r := AddModulo(P_WORDS, lhs, rhs);
  }

  method FieldSubtract(lhs: Big, rhs: Big) returns (r: Big)
    ensures P > 1 && r.Value() == FSub(P, lhs.Value(), rhs.Value())
  {
    hide *;
    FieldConstants();
    r := SubtractModulo(P_WORDS, lhs, rhs);
  }

  method FieldMultiply(lhs: Big, rhs: Big) returns (r: Big)
    ensures P > 1 && r.Value() == FMul(P, lhs.Value(), rhs.Value())
  {
    hide *;
    FieldConstants();
    r := MultiplyModulo(P_WORDS, lhs, rhs);
  }

  method FieldInverse(value: Big) returns (r: Big)
    ensures P > 1 && r.Value() == FInv(P, value.Value())
  {
    hide *;
    FieldConstants();
    r := InvertModulo(P_WORDS, INVERSE_EXPONENT_WORDS, value);
  }

  // ----- bytes -----

  /** The last byte of the minimal string decides. */
  method IsOdd(value: Big) returns (r: bool)
    ensures r <==> value.Value() % 2 == 1
  {
    hide Val;
    var bytes := ToBeBytes(value);
    LastByte(bytes, value.Value());
    r := |bytes| > 0 && bytes[|bytes| - 1] % 2 != 0;
  }

  lemma LastByte(bytes: seq<Byte>, value: nat)
    requires IsMinimalBe(bytes, value)
    ensures value % 2 == 1 <==> |bytes| > 0 && bytes[|bytes| - 1] % 2 != 0
  {
    if |bytes| > 0 {
      var n := |bytes| - 1;
      assert bytes == bytes[..n] + [bytes[n]];
      BeSnoc(bytes[..n], bytes[n]);
      ModAddMultiple(bytes[n], 128 * Be(bytes[..n]), 2);
    }
  }

  method FromLeBytes(bytes: seq<Byte>) returns (r: Big)
    ensures r.Value() == FromLe(bytes)
  {
    r := FromBeBytes(Reverse(bytes));
  }

  /** Fills the output from its front with the bytes of a minimal big-endian string from its back. */
  method ToFixedLeBytes(number: Big, size: nat) returns (r: Result<seq<Byte>>)
    ensures r.Ok? <==> number.Value() < Pow(256, size)
    ensures r.Ok? ==> r.value == ToLe(number.Value(), size)
  {
    hide Val;
    ghost var value := number.Value();
    var be := ToBeBytes(number);
    if |be| > size && !(|be| == 1 && be[0] == 0) {
      TooLong(be, value, size);
      return Err(InvalidArgument);
    }
    var output := new Byte[size](_ => 0);
    var i := 0;
    while i < |be| && i < size
      invariant 0 <= i <= |be| && i <= size
      invariant forall k :: 0 <= k < i ==> output[k] == be[|be| - 1 - k]
      invariant forall k :: i <= k < size ==> output[k] == 0
    {
      output[i] := be[|be| - 1 - i];
      i := i + 1;
    }
    PaddedReverse(be, output[..], value);
    r := Ok(output[..]);
  }

  lemma TooLong(be: seq<Byte>, value: nat, size: nat)
    requires IsMinimalBe(be, value) && |be| > size && !(|be| == 1 && be[0] == 0)
    ensures value >= Pow(256, size)
  {
    assert Pow(256, 0) == 1;
    if size > 0 && value < Pow(256, size) {
      MinimalBeLength(be, value, size);
    }
  }

  lemma PaddedReverse(be: seq<Byte>, output: seq<Byte>, value: nat)
    requires IsMinimalBe(be, value) && (|be| <= |output| || be == [0])
    requires forall k :: 0 <= k < |output| ==> output[k] == if k < |be| then be[|be| - 1 - k] else 0
    ensures value < Pow(256, |output|) && output == ToLe(value, |output|)
  {
    FromLeBound(output);
    ToLeOfFromLe(output);
    hide Be;
    hide ToLe;
    hide Pow;
    if |be| <= |output| {
      PaddedValue(be, output);
    } else {
      EmptyString(output);
      BeOne(0);
    }
  }

  lemma EmptyString(s: seq<Byte>)
    requires |s| == 0
    ensures FromLe(s) == 0
  {
  }

  lemma PaddedValue(be: seq<Byte>, output: seq<Byte>)
    requires |be| <= |output|
    requires forall k :: 0 <= k < |output| ==> output[k] == if k < |be| then be[|be| - 1 - k] else 0
    ensures FromLe(output) == Be(be)
  {
    hide Be;
    hide Pow;
    var zeros := seq(|output| - |be|, _ => 0);
    assert Reverse(output) == zeros + be;
    BeZeros(zeros);
    BeConcat(zeros, be);
  }

  // ----- scalars -----

  /** The residue of a little-endian string modulo the group order, by adding zero. */
  function ReduceModOrder(littleEndian: seq<Byte>): nat {
    (FromLe(littleEndian) + 0) % L
  }

  method ReduceToOrder(littleEndian: seq<Byte>) returns (r: Big)
    ensures r.Value() == ReduceModOrder(littleEndian)
  {
    FieldConstants();
    hide Val;
    hide Spelled;
    hide FromLe;
    hide L;
    var value := FromLeBytes(littleEndian);
    var zero := Small(0);
    r := AddModulo(L_WORDS, value, zero);
  }

  method MultiplyModOrder(lhs: Big, rhs: Big) returns (r: Big)
    ensures L > 0 && r.Value() == FMul(L, lhs.Value(), rhs.Value())
  {
    hide *;
    FieldConstants();
    r := MultiplyModulo(L_WORDS, lhs, rhs);
  }

  method AddModOrder(lhs: Big, rhs: Big) returns (r: Big)
    ensures L > 0 && r.Value() == FAdd(L, lhs.Value(), rhs.Value())
  {
    hide *;
    FieldConstants();
    r := AddModulo(L_WORDS, lhs, rhs);
  }

  method ScalarIsCanonical(littleEndian: seq<Byte>) returns (r: bool)
    ensures r <==> FromLe(littleEndian) < L
  {
    hide *;
    FieldConstants();
    var value := FromLeBytes(littleEndian);
    var order := Constant(L_WORDS);
    var comparison := Compare(value, order);
    r := comparison < 0;
  }

  // ----- points -----

  datatype BigPoint = BigPoint(x: Big, y: Big, z: Big, t: Big)

  function ExtendedOf(e: BigPoint): ExtendedPoint {
    ExtendedPoint(e.x.Value(), e.y.Value(), e.z.Value(), e.t.Value())
  }

  method Identity() returns (r: BigPoint)
    ensures ExtendedOf(r) == EXTENDED_IDENTITY
  {
    hide Val;
    var zero := Small(0);
    var one := Small(1);
    r := BigPoint(zero, one, one, zero);
  }

  method MakePoint(x: Big, y: Big) returns (r: BigPoint)
    ensures CURVE.p > 1 && ExtendedOf(r) == MakeAffinePoint(CURVE, x.Value(), y.Value())
  {
    FieldConstants();
    hide Val;
    hide Spelled;
    hide FMul;
    hide P;
    hide CURVE;
    var one := Small(1);
    var t := FieldMultiply(x, y);
    r := BigPoint(x, y, one, t);
  }

  /** `point_add`. */
  method AddPoints(lhs: BigPoint, rhs: BigPoint) returns (r: BigPoint)
    ensures CURVE.p > 1 && ExtendedOf(r) == PointAdd(CURVE, ExtendedOf(lhs), ExtendedOf(rhs))
  {
    FieldConstants();
    hide Val;
    hide Spelled;
    hide FAdd;
    hide FSub;
    hide FMul;
    hide P;
    hide D;
    hide CURVE;
    var y1MinusX1 := FieldSubtract(lhs.y, lhs.x);
    var y2MinusX2 := FieldSubtract(rhs.y, rhs.x);
    var y1PlusX1 := FieldAdd(lhs.y, lhs.x);
    var y2PlusX2 := FieldAdd(rhs.y, rhs.x);
    var d := Constant(D_WORDS);
    var twoD := FieldAdd(d, d);
    var twoZ1 := FieldAdd(lhs.z, lhs.z);
    var a := FieldMultiply(y1MinusX1, y2MinusX2);
    var b := FieldMultiply(y1PlusX1, y2PlusX2);
    var c0 := FieldMultiply(lhs.t, rhs.t);
    var d0 := FieldMultiply(twoZ1, rhs.z);
    var c := FieldMultiply(c0, twoD);
    var e := FieldSubtract(b, a);
    var f := FieldSubtract(d0, c);
    var g := FieldAdd(d0, c);
    var h := FieldAdd(b, a);
    var x3 := FieldMultiply(e, f);
    var y3 := FieldMultiply(g, h);
    var t3 := FieldMultiply(e, h);
    var z3 := FieldMultiply(f, g);
    r := BigPoint(x3, y3, z3, t3);
  }

  /** `points_equal`. */
  method SamePoint(lhs: BigPoint, rhs: BigPoint) returns (r: bool)
    ensures CURVE.p > 1 && (r <==> PointsEqual(CURVE, ExtendedOf(lhs), ExtendedOf(rhs)))
  {
    FieldConstants();
    hide Val;
    hide Spelled;
    hide FMul;
    hide P;
    hide CURVE;
    var leftX := FieldMultiply(lhs.x, rhs.z);
    var rightX := FieldMultiply(rhs.x, lhs.z);
    var leftY := FieldMultiply(lhs.y, rhs.z);
    var rightY := FieldMultiply(rhs.y, lhs.z);
    var sameX := Equal(leftX, rightX);
    var sameY := Equal(leftY, rightY);
    r := sameX && sameY;
  }

  // ----- coding -----

  /** `encode_point`. */
  method Encode(e: BigPoint) returns (r: seq<Byte>)
    ensures r == EncodePoint(ExtendedOf(e))
  {
    FieldConstants();
    hide Val;
    hide Spelled;
    hide FMul;
    hide FInv;
    hide ToLe;
    hide P;
    var zInverse := FieldInverse(e.z);
    var x := FieldMultiply(e.x, zInverse);
    var y := FieldMultiply(e.y, zInverse);
    FieldFits(y.Value());
    var encoded := ToFixedLeBytes(y, 32);
    var odd := IsOdd(x);
    r := SetParity(encoded.value, odd);
  }

  /** The quotient (y^2 - 1) / (d y^2 + 1). */
  method SquareOver(y: Big) returns (r: Big)
    ensures r.Value() == XSquared(y.Value())
  {
    FieldConstants();
    hide Val;
    hide Spelled;
    hide FAdd;
    hide FSub;
    hide FMul;
    hide FInv;
    hide P;
    hide D;
    var y2 := FieldMultiply(y, y);
    var one := Small(1);
    var d := Constant(D_WORDS);
    var u := FieldSubtract(y2, one);
    var dy2 := FieldMultiply(d, y2);
    var v := FieldAdd(dy2, one);
    var vInverse := FieldInverse(v);
    r := FieldMultiply(u, vInverse);
  }

  /** The candidate root, corrected by sqrt(-1) when its square is wrong. */
  method Root(x2: Big) returns (x: Big, found: bool)
    ensures x.Value() == CandidateRoot(x2.Value())
    ensures P > 0 && (found <==> FMul(P, x.Value(), x.Value()) == x2.Value())
  {
    FieldConstants();
    CandidateIs(x2.Value(), Pow(x2.Value(), SQRT_EXPONENT));
    hide *;
    var p := Constant(P_WORDS);
    var exponent := Constant(SQRT_EXPONENT_WORDS);
    var power := BigIntPower.ModExp(x2, exponent, p);
    x := power.value;
    var check := FieldMultiply(x, x);
    found := Equal(check, x2);
    if !found {
      var sqrtMinusOne := Constant(SQRT_MINUS_ONE_WORDS);
      x := FieldMultiply(x, sqrtMinusOne);
      check := FieldMultiply(x, x);
      found := Equal(check, x2);
    }
  }

  /** `decode_point`. */
  method Decode(encoded: seq<Byte>) returns (r: Result<BigPoint>)
    ensures r.Ok? <==> DecodePoint(encoded).Ok?
    ensures r.Ok? ==> ExtendedOf(r.value) == DecodePoint(encoded).value
    ensures r.Err? ==> r.error == InvalidKey
  {
    FieldConstants();
    hide Val;
    hide Spelled;
    hide FSub;
    hide FMul;
    hide FromLe;
    hide XSquared;
    hide CandidateRoot;
    hide MakeAffinePoint;
    hide P;
    hide CURVE;
    if |encoded| != 32 {
      return Err(InvalidKey);
    }
    var xOdd := encoded[31] >= 0x80;
    var y := FromLeBytes(encoded[31 := encoded[31] % 0x80]);
    var p := Constant(P_WORDS);
    var order := Compare(y, p);
    if order >= 0 {
      return Err(InvalidKey);
    }
    var x2 := SquareOver(y);
    var x, found := Root(x2);
    if !found {
      return Err(InvalidKey);
    }
    ZeroIff(x);
    if x.IsZero() && xOdd {
      return Err(InvalidKey);
    }
    var odd := IsOdd(x);
    if odd != xOdd {
      x := FieldSubtract(p, x);
    }
    var point := MakePoint(x, y);
    r := Ok(point);
  }
}
