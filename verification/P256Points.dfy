/** The P-256 constants and the point formulas of `src/p256_fixed.cpp`, computed on limbs. */
module P256Points {
  import opened NumberTheory
  import opened Digits
  import opened Words256
  import opened P256Limbs
  import opened PrimeField
  import opened Weierstrass
  import opened Jacobian

  const P_VALUE: U256 := [0xFFFFFFFF, 0xFFFFFFFF, 0xFFFFFFFF, 0x00000000, 0x00000000, 0x00000000, 0x00000001, 0xFFFFFFFF]
  const A_VALUE: U256 := [0xFFFFFFFC, 0xFFFFFFFF, 0xFFFFFFFF, 0x00000000, 0x00000000, 0x00000000, 0x00000001, 0xFFFFFFFF]
  const B_VALUE: U256 := [0x27D2604B, 0x3BCE3C3E, 0xCC53B0F6, 0x651D06B0, 0x769886BC, 0xB3EBBD55, 0xAA3A93E7, 0x5AC635D8]
  const GX_VALUE: U256 := [0xD898C296, 0xF4A13945, 0x2DEB33A0, 0x77037D81, 0x63A440F2, 0xF8BCE6E5, 0xE12C4247, 0x6B17D1F2]
  const GY_VALUE: U256 := [0x37BF51F5, 0xCBB64068, 0x6B315ECE, 0x2BCE3357, 0x7C0F9E16, 0x8EE7EB4A, 0xFE1A7F9B, 0x4FE342E2]
  const N_VALUE: U256 := [0xFC632551, 0xF3B9CAC2, 0xA7179E84, 0xBCE6FAAD, 0xFFFFFFFF, 0xFFFFFFFF, 0x00000000, 0xFFFFFFFF]
  const P_MINUS_TWO_VALUE: U256 := [0xFFFFFFFD, 0xFFFFFFFF, 0xFFFFFFFF, 0x00000000, 0x00000000, 0x00000000, 0x00000001, 0xFFFFFFFF]
  const N_MINUS_TWO_VALUE: U256 := [0xFC63254F, 0xF3B9CAC2, 0xA7179E84, 0xBCE6FAAD, 0xFFFFFFFF, 0xFFFFFFFF, 0x00000000, 0xFFFFFFFF]

  const P: int := Spelled(P_VALUE)
  const A: int := Spelled(A_VALUE)
  const B: int := Spelled(B_VALUE)
  const GX: int := Spelled(GX_VALUE)
  const GY: int := Spelled(GY_VALUE)
  const N: int := Spelled(N_VALUE)

  const CURVE: Curve := Curve(P, A, B)
  const G: AffinePoint := AffinePoint(GX, GY, false)

  /** The limb constants spell the numbers of SP 800-186, section 3.2.1.3. */
  lemma ConstantValues()
    ensures P == 0xFFFFFFFF00000001000000000000000000000000FFFFFFFFFFFFFFFFFFFFFFFF
    ensures A == 0xFFFFFFFF00000001000000000000000000000000FFFFFFFFFFFFFFFFFFFFFFFC
    ensures B == 0x5AC635D8AA3A93E7B3EBBD55769886BC651D06B0CC53B0F63BCE3C3E27D2604B
    ensures GX == 0x6B17D1F2E12C4247F8BCE6E563A440F277037D812DEB33A0F4A13945D898C296
    ensures GY == 0x4FE342E2FE1A7F9B8EE7EB4A7C0F9E162BCE33576B315ECECBB6406837BF51F5
    ensures N == 0xFFFFFFFF00000000FFFFFFFFFFFFFFFFBCE6FAADA7179E84F3B9CAC2FC632551
  {
    hide Val;
    ConstantsAgree();
    hide Spelled;
    LimbsValue(P_VALUE);
    LimbsValue(A_VALUE);
    LimbsValue(B_VALUE);
    LimbsValue(GX_VALUE);
    LimbsValue(GY_VALUE);
    LimbsValue(N_VALUE);
  }

  lemma ConstantsAgree()
    ensures Val(P_VALUE) == P && Val(A_VALUE) == A && Val(B_VALUE) == B
    ensures Val(GX_VALUE) == GX && Val(GY_VALUE) == GY && Val(N_VALUE) == N
    ensures Val(P_MINUS_TWO_VALUE) == P - 2 && Val(N_MINUS_TWO_VALUE) == N - 2
    ensures Val(ZERO) == 0 && P > 3 && N > 3
  {
    SpelledIs(P_VALUE);
    SpelledIs(A_VALUE);
    SpelledIs(B_VALUE);
    SpelledIs(GX_VALUE);
    SpelledIs(GY_VALUE);
    SpelledIs(N_VALUE);
    hide Val;
    hide Spelled;
    LimbsValue(P_VALUE);
    LimbsValue(P_MINUS_TWO_VALUE);
    LimbsValue(N_VALUE);
    LimbsValue(N_MINUS_TWO_VALUE);
    LimbsValue(ZERO);
  }

  lemma BasePointOnCurve()
    ensures OnCurve(CURVE, G)
  {
    hide SatisfiesEquation;
    ConstantValues();
    hide Spelled;
    EquationForm(CURVE, G);
    CongFrom(GY * GY, GX * GX * GX + A * GX + B, P,
             -0x12bdd1ad23dfc833dccf5f6141d6bb4a1f365dc1430b0e600b52dd851938d2d6fe48d89a1028327df66c2a7b9edc3e46cdec89e6af942f1b022b7fe93b37c6ee);
  }

  // ----- field operations -----

  predicate Reduced(x: U256) {
    Val(x) < P
  }

  method FieldAdd(lhs: U256, rhs: U256) returns (r: U256)
    ensures Val(r) == FAdd(P, Val(lhs), Val(rhs))
  {
    ConstantsAgree();
    r := ModAdd(lhs, rhs, P_VALUE);
  }

  method FieldSubtract(lhs: U256, rhs: U256) returns (r: U256)
    requires Reduced(lhs) && Reduced(rhs)
    ensures Val(r) == FSub(P, Val(lhs), Val(rhs))
  {
    hide Val;
    ConstantsAgree();
    r := ModSubtract(lhs, rhs, P_VALUE);
  }

  method FieldMultiply(lhs: U256, rhs: U256) returns (r: U256)
    ensures Val(r) == FMul(P, Val(lhs), Val(rhs))
  {
    ConstantsAgree();
    r := ModMultiply(lhs, rhs, P_VALUE);
  }

  method FieldInverse(value: U256) returns (r: U256)
    ensures Val(r) == FInv(P, Val(value))
  {
    ConstantsAgree();
    r := ModExp(value, P_MINUS_TWO_VALUE, P_VALUE);
  }

  method SmallWord(value: Word) returns (r: U256)
    ensures Val(r) == value
  {
    r := [value, 0, 0, 0, 0, 0, 0, 0];
    LimbsValue(r);
  }

  // ----- points on limbs -----

  datatype LimbAffine = LimbAffine(x: U256, y: U256, infinity: bool)

  datatype LimbJacobian = LimbJacobian(x: U256, y: U256, z: U256, infinity: bool)

  function AffineValue(q: LimbAffine): AffinePoint {
    AffinePoint(Val(q.x), Val(q.y), q.infinity)
  }

  function JacobianValue(j: LimbJacobian): JacobianPoint {
    JacobianPoint(Val(j.x), Val(j.y), Val(j.z), j.infinity)
  }

  predicate ReducedAffine(q: LimbAffine) {
    Reduced(q.x) && Reduced(q.y)
  }

  predicate ReducedJacobian(j: LimbJacobian) {
    Reduced(j.x) && Reduced(j.y) && Reduced(j.z)
  }

  method LimbInfinity() returns (r: LimbJacobian)
    ensures JacobianValue(r) == JACOBIAN_INFINITY && ReducedJacobian(r)
  {
    ConstantsAgree();
    hide Val;
    hide Spelled;
    r := LimbJacobian(ZERO, ZERO, ZERO, true);
  }

  method AffineToLimbJacobian(q: LimbAffine) returns (r: LimbJacobian)
    requires ReducedAffine(q)
    ensures JacobianValue(r) == AffineToJacobian(AffineValue(q)) && ReducedJacobian(r)
  {
    if q.infinity {
      r := LimbInfinity();
      return;
    }
    OneValue();
    r := LimbJacobian(q.x, q.y, U256_ONE, false);
  }

  lemma ReducedIsWellFormed(q: LimbAffine)
    requires ReducedAffine(q) && !q.infinity
    ensures OnCurve(CURVE, AffineValue(q)) <==> SatisfiesEquation(CURVE, AffineValue(q))
  {
    hide SatisfiesEquation;
    hide Val;
  }

  lemma EquationOnValues(q: LimbAffine)
    requires ReducedAffine(q) && !q.infinity
    ensures P > 1 && CURVE.p == P
    ensures var x, y := Val(q.x), Val(q.y);
            OnCurve(CURVE, AffineValue(q)) <==>
              FMul(P, y, y) == FAdd(P, FAdd(P, FMul(P, FMul(P, x, x), x), FMul(P, A, x)), B)
  {
    ReducedIsWellFormed(q);
    CurveIs();
    hide Val;
    hide FAdd;
    hide FMul;
    hide OnCurve;
    hide P;
    hide A;
    hide B;
    hide CURVE;
  }

  lemma CurveIs()
    ensures P > 3 && CURVE == Curve(P, A, B)
  {
    ConstantsAgree();
    hide Spelled;
  }

  method IsOnCurveAffine(q: LimbAffine) returns (r: bool)
    requires ReducedAffine(q)
    ensures r <==> !q.infinity && OnCurve(CURVE, AffineValue(q))
  {
    hide *;
    if q.infinity {
      return false;
    }
    ConstantsAgree();
    EquationOnValues(q);
    var ySquared := FieldMultiply(q.y, q.y);
    var xSquared := FieldMultiply(q.x, q.x);
    var xCubed := FieldMultiply(xSquared, q.x);
    var ax := FieldMultiply(A_VALUE, q.x);
    var sum := FieldAdd(xCubed, ax);
    var rhs := FieldAdd(sum, B_VALUE);
    var order := Compare(ySquared, rhs);
    r := order == 0;
  }

  method LimbDoubleAffine(q: LimbAffine) returns (r: LimbAffine)
    requires ReducedAffine(q) && (q.infinity ==> AffineValue(q) == INFINITY)
    ensures AffineValue(r) == Double(CURVE, AffineValue(q)) && ReducedAffine(r)
  {
    hide FAdd;
    hide FSub;
    hide FMul;
    hide FInv;
    hide Val;
    ConstantsAgree();
    var yZero := IsZero(q.y);
    if q.infinity || yZero {
      return LimbAffine(ZERO, ZERO, true);
    }
    var two := SmallWord(2);
    var three := SmallWord(3);
    var xSquared := FieldMultiply(q.x, q.x);
    var threeXSquared := FieldMultiply(three, xSquared);
    var numerator := FieldAdd(threeXSquared, A_VALUE);
    var denominator := FieldMultiply(two, q.y);
    var inverse := FieldInverse(denominator);
    var slope := FieldMultiply(numerator, inverse);
    var slopeSquared := FieldMultiply(slope, slope);
    var twoX := FieldMultiply(two, q.x);
    var x3 := FieldSubtract(slopeSquared, twoX);
    var delta := FieldSubtract(q.x, x3);
    var product := FieldMultiply(slope, delta);
    var y3 := FieldSubtract(product, q.y);
    r := LimbAffine(x3, y3, false);
  }

  /** The part of `p256_fixed_point_add` after both points have been checked. */
  method LimbAddAffine(q: LimbAffine, s: LimbAffine) returns (r: LimbAffine)
    requires ReducedAffine(q) && ReducedAffine(s) && !q.infinity && !s.infinity
    ensures AffineValue(r) == Add(CURVE, AffineValue(q), AffineValue(s)) && ReducedAffine(r)
  {
    hide FAdd;
    hide FSub;
    hide FMul;
    hide FInv;
    hide Val;
    hide Double;
    ConstantsAgree();
    var order := Compare(q.x, s.x);
    if order == 0 {
      var ySum := FieldAdd(q.y, s.y);
      var opposite := IsZero(ySum);
      if opposite {
        return LimbAffine(ZERO, ZERO, true);
      }
      r := LimbDoubleAffine(q);
      return;
    }
    var numerator := FieldSubtract(s.y, q.y);
    var denominator := FieldSubtract(s.x, q.x);
    var inverse := FieldInverse(denominator);
    var slope := FieldMultiply(numerator, inverse);
    var slopeSquared := FieldMultiply(slope, slope);
    var withoutRight := FieldSubtract(slopeSquared, q.x);
    var x3 := FieldSubtract(withoutRight, s.x);
    var delta := FieldSubtract(q.x, x3);
    var product := FieldMultiply(slope, delta);
    var y3 := FieldSubtract(product, q.y);
    r := LimbAffine(x3, y3, false);
  }

  method LimbDouble(j: LimbJacobian) returns (r: LimbJacobian)
    requires ReducedJacobian(j)
    ensures JacobianValue(r) == JacobianDouble(CURVE, JacobianValue(j)) && ReducedJacobian(r)
  {
    hide FAdd;
    hide FSub;
    hide FMul;
    hide Val;
    ConstantsAgree();
    var yZero := IsZero(j.y);
    if j.infinity || yZero {
      r := LimbInfinity();
      return;
    }
    var two := SmallWord(2);
    var three := SmallWord(3);
    var eight := SmallWord(8);
    var xx := FieldMultiply(j.x, j.x);
    var yy := FieldMultiply(j.y, j.y);
    var yyyy := FieldMultiply(yy, yy);
    var zz := FieldMultiply(j.z, j.z);
    var xPlusYY := FieldAdd(j.x, yy);
    var square := FieldMultiply(xPlusYY, xPlusYY);
    var withoutXX := FieldSubtract(square, xx);
    var sHalf := FieldSubtract(withoutXX, yyyy);
    var s := FieldMultiply(two, sHalf);
    var zzSquared := FieldMultiply(zz, zz);
    var aZZSquared := FieldMultiply(A_VALUE, zzSquared);
    var threeXX := FieldMultiply(three, xx);
    var m := FieldAdd(threeXX, aZZSquared);
    var mSquared := FieldMultiply(m, m);
    var twoS := FieldMultiply(two, s);
    var x3 := FieldSubtract(mSquared, twoS);
    var delta := FieldSubtract(s, x3);
    var mDelta := FieldMultiply(m, delta);
    var eightYYYY := FieldMultiply(eight, yyyy);
    var y3 := FieldSubtract(mDelta, eightYYYY);
    var yPlusZ := FieldAdd(j.y, j.z);
    var yzSquare := FieldMultiply(yPlusZ, yPlusZ);
    var withoutYY := FieldSubtract(yzSquare, yy);
    var z3 := FieldSubtract(withoutYY, zz);
    var zZero := IsZero(z3);
    if zZero {
      r := LimbInfinity();
      return;
    }
    r := LimbJacobian(x3, y3, z3, false);
  }

  method LimbAddMixed(j: LimbJacobian, q: LimbAffine) returns (r: LimbJacobian)
    requires ReducedJacobian(j) && ReducedAffine(q)
    ensures JacobianValue(r) == JacobianAddAffine(CURVE, JacobianValue(j), AffineValue(q)) && ReducedJacobian(r)
  {
    hide FAdd;
    hide FSub;
    hide FMul;
    hide Val;
    hide JacobianDouble;
    if q.infinity {
      return j;
    }
    if j.infinity {
      r := AffineToLimbJacobian(q);
      return;
    }
    var two := SmallWord(2);
    var four := SmallWord(4);
    var z1z1 := FieldMultiply(j.z, j.z);
    var u2 := FieldMultiply(q.x, z1z1);
    var zCubed := FieldMultiply(j.z, z1z1);
    var s2 := FieldMultiply(q.y, zCubed);
    var h := FieldSubtract(u2, j.x);
    var s2MinusY1 := FieldSubtract(s2, j.y);
    var hZero := IsZero(h);
    if hZero {
      var sZero := IsZero(s2MinusY1);
      if sZero {
        r := LimbDouble(j);
        return;
      }
      r := LimbInfinity();
      return;
    }
    var hh := FieldMultiply(h, h);
    var i := FieldMultiply(four, hh);
    var jj := FieldMultiply(h, i);
    var rr := FieldMultiply(two, s2MinusY1);
    var v := FieldMultiply(j.x, i);
    var rSquared := FieldMultiply(rr, rr);
    var withoutJ := FieldSubtract(rSquared, jj);
    var twoV := FieldMultiply(two, v);
    var x3 := FieldSubtract(withoutJ, twoV);
    var delta := FieldSubtract(v, x3);
    var rDelta := FieldMultiply(rr, delta);
    var yJ := FieldMultiply(j.y, jj);
    var twoYJ := FieldMultiply(two, yJ);
    var y3 := FieldSubtract(rDelta, twoYJ);
    var z1PlusH := FieldAdd(j.z, h);
    var zhSquare := FieldMultiply(z1PlusH, z1PlusH);
    var withoutZZ := FieldSubtract(zhSquare, z1z1);
    var z3 := FieldSubtract(withoutZZ, hh);
    var zZero := IsZero(z3);
    if zZero {
      r := LimbInfinity();
      return;
    }
    r := LimbJacobian(x3, y3, z3, false);
  }

  method LimbToAffine(j: LimbJacobian) returns (r: LimbAffine)
    requires ReducedJacobian(j)
    ensures AffineValue(r) == JacobianToAffine(CURVE, JacobianValue(j)) && ReducedAffine(r)
  {
    hide FMul;
    hide FInv;
    hide Val;
    ConstantsAgree();
    if j.infinity {
      return LimbAffine(ZERO, ZERO, true);
    }
    var zInverse := FieldInverse(j.z);
    var zInverseSquared := FieldMultiply(zInverse, zInverse);
    var zInverseCubed := FieldMultiply(zInverseSquared, zInverse);
    var x := FieldMultiply(j.x, zInverseSquared);
    var y := FieldMultiply(j.y, zInverseCubed);
    r := LimbAffine(x, y, false);
  }
}
