/** The reference form of P-256, `src/p256.cpp`: the point formulas and the bit-by-bit multiplication,
    carried out on arbitrary-length integers. */
module P256Reference {
  import opened NumberTheory
  import opened Digits
  import opened Words256
  import opened BigInt
  import opened BigField
  import opened PrimeField
  import opened Weierstrass
  import opened Jacobian
  import opened P256Points
  import opened P256
  import opened Results

  // ----- the field -----

  lemma FieldConstants()
    ensures P == Spelled(P_VALUE) > 3 && A == Spelled(A_VALUE) && B == Spelled(B_VALUE)
    ensures Spelled(P_MINUS_TWO_VALUE) == P - 2 && CURVE == Curve(P, A, B)
  {
    ConstantsAgree();
    SpelledIs(P_MINUS_TWO_VALUE);
    hide Val;
    hide Spelled;
  }

  method FieldAdd(lhs: Big, rhs: Big) returns (r: Big)
    ensures P > 1 && r.Value() == FAdd(P, lhs.Value(), rhs.Value())
  {
    hide *;
    FieldConstants();
    r := AddModulo(P_VALUE, lhs, rhs);
  }

  method FieldSubtract(lhs: Big, rhs: Big) returns (r: Big)
    ensures P > 1 && r.Value() == FSub(P, lhs.Value(), rhs.Value())
  {
    hide *;
    FieldConstants();
    r := SubtractModulo(P_VALUE, lhs, rhs);
  }

  method FieldMultiply(lhs: Big, rhs: Big) returns (r: Big)
    ensures P > 1 && r.Value() == FMul(P, lhs.Value(), rhs.Value())
  {
    hide *;
    FieldConstants();
    r := MultiplyModulo(P_VALUE, lhs, rhs);
  }

  method FieldInverse(value: Big) returns (r: Big)
    ensures P > 1 && r.Value() == FInv(P, value.Value())
  {
    hide *;
    FieldConstants();
    r := InvertModulo(P_VALUE, P_MINUS_TWO_VALUE, value);
  }

  // ----- points -----

  datatype BigAffine = BigAffine(x: Big, y: Big)

  datatype BigJacobian = BigJacobian(x: Big, y: Big, z: Big, infinity: bool)

  function AffineOf(q: BigAffine): AffinePoint {
    AffinePoint(q.x.Value(), q.y.Value(), false)
  }

  function JacobianOf(j: BigJacobian): JacobianPoint {
    JacobianPoint(j.x.Value(), j.y.Value(), j.z.Value(), j.infinity)
  }

  method JacobianInfinity() returns (r: BigJacobian)
    ensures JacobianOf(r) == JACOBIAN_INFINITY
  {
    hide Val;
    var zero := Small(0);
    r := BigJacobian(zero, zero, zero, true);
  }

  method AffineToBigJacobian(q: BigAffine) returns (r: BigJacobian)
    ensures JacobianOf(r) == AffineToJacobian(AffineOf(q))
  {
    hide Val;
    var one := Small(1);
    r := BigJacobian(q.x, q.y, one, false);
  }

  /** The two sides of the curve equation compared. */
  method IsOnCurve(q: BigAffine) returns (r: bool)
    ensures P > 1 && CURVE.p == P && (r <==> SatisfiesEquation(CURVE, AffineOf(q)))
  {
    FieldConstants();
    hide Val;
    hide Spelled;
    hide FAdd;
    hide FMul;
    var ySquared := FieldMultiply(q.y, q.y);
    var xSquared := FieldMultiply(q.x, q.x);
    var xCubed := FieldMultiply(xSquared, q.x);
    var a := Constant(A_VALUE);
    var ax := FieldMultiply(a, q.x);
    var b := Constant(B_VALUE);
    var withoutB := FieldAdd(xCubed, ax);
    var rhs := FieldAdd(withoutB, b);
    r := Equal(ySquared, rhs);
  }

  method DoublePoint(j: BigJacobian) returns (r: BigJacobian)
    ensures JacobianOf(r) == JacobianDouble(CURVE, JacobianOf(j))
  {
    FieldConstants();
    hide Val;
    hide Spelled;
    hide FAdd;
    hide FSub;
    hide FMul;
    hide P;
    hide A;
    ZeroIff(j.y);
    if j.infinity || j.y.IsZero() {
      r := JacobianInfinity();
      return;
    }
    var two := Small(2);
    var three := Small(3);
    var eight := Small(8);
    var xx := FieldMultiply(j.x, j.x);
    var yy := FieldMultiply(j.y, j.y);
    var yyyy := FieldMultiply(yy, yy);
    var zz := FieldMultiply(j.z, j.z);
    var xPlusYY := FieldAdd(j.x, yy);
    var square := FieldMultiply(xPlusYY, xPlusYY);
    var withoutXX := FieldSubtract(square, xx);
    var sHalf := FieldSubtract(withoutXX, yyyy);
    var s := FieldMultiply(two, sHalf);
    var zzSquared := FieldMultiply(zz, zz);
    var a := Constant(A_VALUE);
    var aZZSquared := FieldMultiply(a, zzSquared);
    var threeXX := FieldMultiply(three, xx);
    var m := FieldAdd(threeXX, aZZSquared);
    var mSquared := FieldMultiply(m, m);
    var twoS := FieldMultiply(two, s);
    var x3 := FieldSubtract(mSquared, twoS);
    var delta := FieldSubtract(s, x3);
    var mDelta := FieldMultiply(m, delta);
    var eightYYYY := FieldMultiply(eight, yyyy);
    var y3 := FieldSubtract(mDelta, eightYYYY);
    var yPlusZ := FieldAdd(j.y, j.z);
    var yzSquare := FieldMultiply(yPlusZ, yPlusZ);
    var withoutYY := FieldSubtract(yzSquare, yy);
    var z3 := FieldSubtract(withoutYY, zz);
    ZeroIff(z3);
    if z3.IsZero() {
      r := JacobianInfinity();
      return;
    }
    r := BigJacobian(x3, y3, z3, false);
  }

  method AddAffinePoint(j: BigJacobian, q: BigAffine) returns (r: BigJacobian)
    ensures JacobianOf(r) == JacobianAddAffine(CURVE, JacobianOf(j), AffineOf(q))
  {
    FieldConstants();
    hide Val;
    hide Spelled;
    hide FAdd;
    hide FSub;
    hide FMul;
    hide JacobianDouble;
    hide P;
    hide A;
    if j.infinity {
      r := AffineToBigJacobian(q);
      return;
    }
    var two := Small(2);
    var four := Small(4);
    var z1z1 := FieldMultiply(j.z, j.z);
    var u2 := FieldMultiply(q.x, z1z1);
    var zCubed := FieldMultiply(j.z, z1z1);
    var s2 := FieldMultiply(q.y, zCubed);
    var h := FieldSubtract(u2, j.x);
    var s2MinusY1 := FieldSubtract(s2, j.y);
    ZeroIff(h);
    ZeroIff(s2MinusY1);
    if h.IsZero() {
      if s2MinusY1.IsZero() {
        r := DoublePoint(j);
        return;
      }
      r := JacobianInfinity();
      return;
    }
    var hh := FieldMultiply(h, h);
    var i := FieldMultiply(four, hh);
    var jj := FieldMultiply(h, i);
    var rr := FieldMultiply(two, s2MinusY1);
    var v := FieldMultiply(j.x, i);
    var rSquared := FieldMultiply(rr, rr);
    var withoutJ := FieldSubtract(rSquared, jj);
    var twoV := FieldMultiply(two, v);
    var x3 := FieldSubtract(withoutJ, twoV);
    var delta := FieldSubtract(v, x3);
    var rDelta := FieldMultiply(rr, delta);
    var yJ := FieldMultiply(j.y, jj);
    var twoYJ := FieldMultiply(two, yJ);
    var y3 := FieldSubtract(rDelta, twoYJ);
    var z1PlusH := FieldAdd(j.z, h);
    var zhSquare := FieldMultiply(z1PlusH, z1PlusH);
    var withoutZZ := FieldSubtract(zhSquare, z1z1);
    var z3 := FieldSubtract(withoutZZ, hh);
    ZeroIff(z3);
    if z3.IsZero() {
      r := JacobianInfinity();
      return;
    }
    r := BigJacobian(x3, y3, z3, false);
  }

  /** The minimal bytes behind zeros, 32 in all. */
  method Fixed32Bytes(value: Big) returns (r: Result<seq<Byte>>)
    ensures r.Ok? <==> value.Value() < Pow(256, 32)
    ensures r.Ok? ==> r.value == ToBe(value.Value(), 32)
  {
    hide Val;
    hide Pow;
    hide Be;
    var minimal := ToBeBytes(value);
    if |minimal| > 32 {
      LongMinimal(minimal, value.Value(), 32);
      return Err(InternalError);
    }
    var zeros := seq(32 - |minimal|, _ => 0);
    BeZeros(zeros);
    BeConcat(zeros, minimal);
    BeBound(zeros + minimal);
    ToBeOfBe(zeros + minimal);
    MinimalDenotes(minimal, value.Value());
    r := Ok(zeros + minimal);
  }

  lemma MinimalDenotes(bytes: seq<Byte>, value: nat)
    requires IsMinimalBe(bytes, value)
    ensures Be(bytes) == value
  {
  }

  lemma LongMinimal(bytes: seq<Byte>, value: nat, size: nat)
    requires IsMinimalBe(bytes, value) && |bytes| > size > 0
    ensures value >= Pow(256, size)
  {
    if value < Pow(256, size) {
      MinimalBeLength(bytes, value, size);
    }
  }

  /** X / Z^2 and Y / Z^3 as a point on bytes. */
  method ToAffine(j: BigJacobian) returns (r: Result<P256Point>)
    ensures var q := JacobianToAffine(CURVE, JacobianOf(j));
            (q.infinity || (q.x >= 0 && q.y >= 0)) && r == Ok(Encode(q))
  {
    FieldConstants();
    AffineInField(JacobianOf(j));
    hide Val;
    hide Be;
    hide Spelled;
    hide FMul;
    hide FInv;
    hide P;
    if j.infinity {
      return Ok(POINT_AT_INFINITY);
    }
    var zInverse := FieldInverse(j.z);
    var zInverseSquared := FieldMultiply(zInverse, zInverse);
    var zInverseCubed := FieldMultiply(zInverseSquared, zInverse);
    var x := FieldMultiply(j.x, zInverseSquared);
    var y := FieldMultiply(j.y, zInverseCubed);
    FieldFitsBytes(x.Value());
    FieldFitsBytes(y.Value());
    var xBytes := Fixed32Bytes(x);
    var yBytes := Fixed32Bytes(y);
    r := Ok(P256Point(xBytes.value, yBytes.value, false));
  }

  lemma AffineInField(j: JacobianPoint)
    ensures CURVE.p > 1
    ensures var q := JacobianToAffine(CURVE, j); q.infinity || (0 <= q.x < P && 0 <= q.y < P)
  {
    FieldConstants();
    hide Spelled;
    hide FInv;
  }

  /** Two 32-byte strings below p, as numbers. */
  method LoadAffinePoint(point: P256Point) returns (r: Result<BigAffine>)
    ensures r.Ok? <==> !point.infinity && |point.x| == 32 && |point.y| == 32 && Be(point.x) < P && Be(point.y) < P
    ensures r.Ok? ==> AffineOf(r.value) == Coordinates(point)
  {
    FieldConstants();
    hide Val;
    hide Be;
    hide Spelled;
    hide P;
    if point.infinity {
      return Err(InvalidArgument);
    }
    if |point.x| != 32 || |point.y| != 32 {
      return Err(InvalidKey);
    }
    var modulus := Constant(P_VALUE);
    var x := FromBeBytes(point.x);
    var y := FromBeBytes(point.y);
    var xOrder := Compare(x, modulus);
    var yOrder := Compare(y, modulus);
    if xOrder >= 0 || yOrder >= 0 {
      return Err(InvalidKey);
    }
    r := Ok(BigAffine(x, y));
  }

  // ----- multiplication -----

  method MultiplyByte(result: BigJacobian, byte: Byte, addend: BigAffine, ghost k: nat) returns (r: BigJacobian)
    requires GroupLaw() && OnCurve(CURVE, AffineOf(addend))
    requires Represents(CURVE, JacobianOf(result), Mul(CURVE, k, AffineOf(addend)))
    ensures Represents(CURVE, JacobianOf(r), Mul(CURVE, 256 * k + byte, AffineOf(addend)))
  {
    hide *;
    GroupIsCurve();
    MulOne(CURVE, AffineOf(addend));
    BytePrefixEnds(k, byte);
    r := result;
    for bit := 8 downto 0
      invariant Represents(CURVE, JacobianOf(r), Mul(CURVE, BytePrefix(k, byte, 8 - bit), AffineOf(addend)))
    {
      ghost var n := BytePrefix(k, byte, 7 - bit);
      BytePrefixStep(k, byte, 7 - bit);
      DoubleStep(JacobianOf(r), AffineOf(addend), n);
      r := DoublePoint(r);
      if Bit(byte, bit) != 0 {
        P256.AddStep(JacobianOf(r), AffineOf(addend), 2 * n, 1);
        r := AddAffinePoint(r, addend);
      }
    }
  }

  method MultiplyString(scalar: seq<Byte>, addend: BigAffine) returns (r: BigJacobian)
    requires GroupLaw() && OnCurve(CURVE, AffineOf(addend))
    ensures Represents(CURVE, JacobianOf(r), Mul(CURVE, Be(scalar), AffineOf(addend)))
  {
    hide *;
    r := JacobianInfinity();
    StartRepresents(AffineOf(addend));
    EmptyScalar(scalar);
    GroupIsCurve();
    for i := 0 to |scalar|
      invariant Represents(CURVE, JacobianOf(r), Mul(CURVE, Be(scalar[..i]), AffineOf(addend)))
    {
      r := MultiplyByte(r, scalar[i], addend, Be(scalar[..i]));
      BePrefix(scalar, i);
    }
  }

  /** For every scalar string and point: the same result as the fixed-limb multiplications. */
  method ScalarMultiply(scalar: seq<Byte>, point: P256Point) returns (r: Result<P256Point>)
    requires GroupLaw()
    ensures point.infinity ==> r == Ok(POINT_AT_INFINITY)
    ensures !point.infinity && !ValidPoint(point) ==> r.Err?
    ensures ValidPoint(point) ==> r == Ok(Multiple(scalar, Coordinates(point)))
  {
    if point.infinity {
      return Ok(POINT_AT_INFINITY);
    }
    ValidCases(point);
    hide *;
    var addend := LoadAffinePoint(point);
    if addend.Err? {
      return Err(addend.error);
    }
    var onCurve := IsOnCurve(addend.value);
    if !onCurve {
      return Err(InvalidKey);
    }
    var result := MultiplyString(scalar, addend.value);
    GroupIsCurve();
    MulOnCurve(CURVE, Be(scalar), Coordinates(point));
    ToAffineCorrect(CURVE, JacobianOf(result), Mul(CURVE, Be(scalar), Coordinates(point)));
    MultipleIs(scalar, Coordinates(point));
    r := ToAffine(result);
  }

  lemma ValidCases(point: P256Point)
    requires !point.infinity
    ensures CURVE.p > 1
    ensures var q := Coordinates(point);
            && (ValidPoint(point)
                <==> |point.x| == 32 && |point.y| == 32 && Be(point.x) < P && Be(point.y) < P && SatisfiesEquation(CURVE, q))
            && (ValidPoint(point) ==> OnCurve(CURVE, q))
  {
    FieldConstants();
    hide Spelled;
    hide Be;
    hide SatisfiesEquation;
  }
}
