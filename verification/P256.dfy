/** P-256 on byte strings: coordinates, point addition, the scalar multiplications and the arithmetic
    modulo the group order, `src/p256_fixed.cpp`; and the reference multiplication of `src/p256.cpp`. */
module P256 {
  import opened NumberTheory
  import opened Digits
  import opened Words256
  import opened P256Limbs
  import opened P256Points
  import opened PrimeField
  import opened Weierstrass
  import opened Jacobian
  import opened Results
  import opened ConstantTime
  import Masks
  import ByteLoops
  import BigInt

  const COORDINATE_SIZE: nat := 32

  datatype P256Point = P256Point(x: seq<Byte>, y: seq<Byte>, infinity: bool)

  const POINT_AT_INFINITY := P256Point([], [], true)

  /** What is taken from outside about the group: p is prime and addition is associative. */
  ghost predicate GroupLaw() {
    IsPrime(P) && Associative(CURVE)
  }

  lemma GroupIsCurve()
    requires GroupLaw()
    ensures IsCurve(CURVE) && Associative(CURVE) && CURVE.p > 3
  {
  }

  // ----- byte strings and numbers -----

  lemma RadixBytes()
    ensures Pow(256, 32) == RADIX
  {
    ByteLoops.Pow256Base(8);
  }

  method U256FromBe(bytes: seq<Byte>) returns (r: Result<U256>)
    ensures r.Ok? <==> Be(bytes) < RADIX
    ensures r.Ok? ==> Val(r.value) == Be(bytes)
  {
    hide Val;
    hide Be;
    hide Pow;
    var rest := bytes;
    while |rest| > 0 && rest[0] == 0
      invariant StripZeros(rest) == StripZeros(bytes)
    {
      rest := rest[1..];
    }
    assert rest == StripZeros(bytes);
    BeStripZeros(bytes);
    RadixBytes();
    if |rest| > COORDINATE_SIZE {
      BeLeading(rest);
      PowMonotone(256, 32, |rest| - 1);
      return Err(InvalidArgument);
    }
    BeBound(rest);
    PowMonotone(256, |rest|, 32);
    var limbs := ByteLoops.LoadLimbs(rest, LIMB_COUNT);
    r := Ok(limbs);
  }

  method CoordinateFromBe(bytes: seq<Byte>) returns (r: Result<U256>)
    ensures r.Ok? <==> |bytes| == 32 && Be(bytes) < P
    ensures r.Ok? ==> Val(r.value) == Be(bytes)
  {
    hide Spelled;
    hide Be;
    hide Val;
    if |bytes| != COORDINATE_SIZE {
      return Err(InvalidArgument);
    }
    hide *;
    BeBound(bytes);
    RadixBytes();
    var value := U256FromBe(bytes);
    ConstantsAgree();
    var order := P256Limbs.Compare(value.value, P_VALUE);
    if order >= 0 {
      return Err(InvalidKey);
    }
    r := value;
  }

  method ToBeBytesMinimal(value: U256) returns (r: seq<Byte>)
    ensures BigInt.IsMinimalBe(r, Val(value))
  {
    var zero := P256Limbs.IsZero(value);
    if zero {
      BeOne(0);
      return [0];
    }
    r := BigInt.MinimalBytes(value);
    assert |r| == 0 ==> Be(r) == 0;
  }

  method ToBeBytesFixed(value: U256) returns (r: seq<Byte>)
    ensures r == ToBe(Val(value), 32)
  {
    hide Val;
    hide Be;
    r := ByteLoops.StoreLimbs(value);
    ToBeOfBe(r);
  }

  // ----- points as byte strings -----

  /** The point a pair of coordinate strings denotes. */
  function Coordinates(point: P256Point): AffinePoint {
    if point.infinity then INFINITY else AffinePoint(Be(point.x), Be(point.y), false)
  }

  /** A finite point of the curve in its only accepted form: 32-byte coordinates below p. */
  predicate ValidPoint(point: P256Point) {
    !point.infinity && |point.x| == 32 && |point.y| == 32 && OnCurve(CURVE, Coordinates(point))
  }

  function Encode(q: AffinePoint): P256Point
    requires q.infinity || (q.x >= 0 && q.y >= 0)
  {
    if q.infinity then POINT_AT_INFINITY else P256Point(ToBe(q.x, 32), ToBe(q.y, 32), false)
  }

  lemma FieldFitsBytes(x: int)
    requires InField(P, x)
    ensures 0 <= x < Pow(256, 32)
  {
    RadixBytes();
    hide Val;
    ConstantsAgree();
    U256Bound(P_VALUE);
  }

  /** Points of the curve and their encodings correspond one to one. */
  lemma EncodingBijective(q: AffinePoint)
    requires OnCurve(CURVE, q)
    ensures Coordinates(Encode(q)) == q && (ValidPoint(Encode(q)) <==> !q.infinity)
  {
    hide SatisfiesEquation;
    hide Be;
    hide ToBe;
    if !q.infinity {
      FieldFitsBytes(q.x);
      FieldFitsBytes(q.y);
      BeOfToBe(q.x, 32);
      BeOfToBe(q.y, 32);
    }
  }

  /** The coordinates as byte strings: 32 bytes each, x first. */
  lemma EncodedCoordinates(q: AffinePoint)
    requires OnCurve(CURVE, q) && !q.infinity
    ensures q.x >= 0 && q.y >= 0
    ensures var point := Encode(q);
            !point.infinity && |point.x| == 32 && |point.y| == 32 && Be(point.x) == q.x && Be(point.y) == q.y
  {
    hide Be;
    hide ToBe;
    hide SatisfiesEquation;
    FieldFitsBytes(q.x);
    FieldFitsBytes(q.y);
    BeOfToBe(q.x, 32);
    BeOfToBe(q.y, 32);
  }

  lemma EncodeOfCoordinates(point: P256Point)
    requires ValidPoint(point)
    ensures Encode(Coordinates(point)) == point
  {
    ToBeOfBe(point.x);
    ToBeOfBe(point.y);
  }

  method MakePoint(q: LimbAffine) returns (r: P256Point)
    ensures r == Encode(AffineValue(q))
  {
    if q.infinity {
      return POINT_AT_INFINITY;
    }
    hide Val;
    var x := ToBeBytesFixed(q.x);
    var y := ToBeBytesFixed(q.y);
    r := P256Point(x, y, false);
  }

  method LoadAffine(point: P256Point) returns (r: Result<LimbAffine>)
    ensures r.Ok? <==> point.infinity || (|point.x| == 32 && |point.y| == 32 && Be(point.x) < P && Be(point.y) < P)
    ensures r.Ok? ==> AffineValue(r.value) == Coordinates(point) && ReducedAffine(r.value)
  {
    hide Val;
    if point.infinity {
      ConstantsAgree();
      return Ok(LimbAffine(ZERO, ZERO, true));
    }
    hide Be;
    var x := CoordinateFromBe(point.x);
    if x.IsFailure() {
      return x.PropagateFailure();
    }
    var y := CoordinateFromBe(point.y);
    if y.IsFailure() {
      return y.PropagateFailure();
    }
    r := Ok(LimbAffine(x.value, y.value, false));
  }

  method RequireAffineOnCurve(point: P256Point) returns (r: Result<LimbAffine>)
    ensures r.Ok? <==> ValidPoint(point)
    ensures r.Ok? ==> AffineValue(r.value) == Coordinates(point) && ReducedAffine(r.value) && !r.value.infinity
  {
    hide Val;
    hide Be;
    hide SatisfiesEquation;
    r := LoadAffine(point);
    if r.IsFailure() {
      return;
    }
    var valid := IsOnCurveAffine(r.value);
    if !valid {
      return Err(InvalidKey);
    }
  }

  method PointFromCoordinates(x: seq<Byte>, y: seq<Byte>) returns (r: Result<P256Point>)
    ensures r.Ok? <==> ValidPoint(P256Point(x, y, false))
    ensures r.Ok? ==> r.value == P256Point(x, y, false)
  {
    var point := P256Point(x, y, false);
    var affine := RequireAffineOnCurve(point);
    if affine.IsFailure() {
      return affine.PropagateFailure();
    }
    r := Ok(point);
  }

  /** The affine group operation on encodings; a finite operand off the curve is refused. */
  method PointAdd(lhs: P256Point, rhs: P256Point) returns (r: Result<P256Point>)
    ensures r.Ok? <==> (lhs.infinity || ValidPoint(lhs)) && (rhs.infinity || ValidPoint(rhs))
    ensures r.Ok? ==> var sum := Add(CURVE, Coordinates(lhs), Coordinates(rhs));
                      (sum.infinity || (sum.x >= 0 && sum.y >= 0)) && r.value == Encode(sum)
  {
    hide Add;
    hide ValidPoint;
    AddUnits(Coordinates(lhs), Coordinates(rhs));
    if lhs.infinity {
      if rhs.infinity {
        return Ok(POINT_AT_INFINITY);
      }
      r := PointFromCoordinates(rhs.x, rhs.y);
      if r.Ok? { EncodeOfCoordinates(rhs); }
      return;
    }
    if rhs.infinity {
      r := PointFromCoordinates(lhs.x, lhs.y);
      if r.Ok? { EncodeOfCoordinates(lhs); }
      return;
    }
    var left := RequireAffineOnCurve(lhs);
    if left.IsFailure() {
      return left.PropagateFailure();
    }
    var right := RequireAffineOnCurve(rhs);
    if right.IsFailure() {
      return right.PropagateFailure();
    }
    var sum := LimbAddAffine(left.value, right.value);
    var point := MakePoint(sum);
    r := Ok(point);
  }

  lemma AddUnits(q: AffinePoint, r: AffinePoint)
    ensures q.infinity ==> Add(CURVE, q, r) == r
    ensures r.infinity && !q.infinity ==> Add(CURVE, q, r) == q
  {
  }

  // ----- steps of the scalar multiplications -----

  lemma DoubleStep(j: JacobianPoint, q: AffinePoint, k: nat)
    requires GroupLaw() && OnCurve(CURVE, q) && Represents(CURVE, j, Mul(CURVE, k, q))
    ensures Represents(CURVE, JacobianDouble(CURVE, j), Mul(CURVE, 2 * k, q))
  {
    hide *;
    GroupIsCurve();
    MulOnCurve(CURVE, k, q);
    DoubleRepresents(CURVE, j, Mul(CURVE, k, q));
    DoubleIsAdd(CURVE, Mul(CURVE, k, q));
    MulAdd(CURVE, q, k, k);
    assert k + k == 2 * k;
  }

  lemma AddStep(j: JacobianPoint, q: AffinePoint, k: nat, m: nat)
    requires GroupLaw() && OnCurve(CURVE, q) && Represents(CURVE, j, Mul(CURVE, k, q))
    ensures Represents(CURVE, JacobianAddAffine(CURVE, j, Mul(CURVE, m, q)), Mul(CURVE, k + m, q))
  {
    hide *;
    GroupIsCurve();
    MulOnCurve(CURVE, k, q);
    MulOnCurve(CURVE, m, q);
    AddRepresents(CURVE, j, Mul(CURVE, k, q), Mul(CURVE, m, q));
    MulAdd(CURVE, q, k, m);
  }

  lemma DoubleIsAdd(c: Curve, q: AffinePoint)
    requires IsCurve(c) && OnCurve(c, q)
    ensures Add(c, q, q) == Double(c, q)
  {
    if !q.infinity {
      FAddZero(c, q.y);
    }
  }

  lemma FAddZero(c: Curve, y: int)
    requires IsCurve(c) && InField(c.p, y)
    ensures FAdd(c.p, y, y) == 0 ==> y == 0
  {
    if y != 0 {
      TwiceNonzero(c, y);
    }
  }

  lemma StartRepresents(q: AffinePoint)
    ensures Represents(CURVE, JACOBIAN_INFINITY, Mul(CURVE, 0, q))
  {
  }

  // ----- bit by bit, with a masked choice -----

  method SelectU256(mask: bv8, ifSet: U256, ifClear: U256) returns (r: U256)
    ensures r == if mask & 0x80 != 0 then ifSet else ifClear
  {
    var wordMask := Masks.WordMaskFromByte(mask);
    Masks.WordMaskCases(mask);
    ghost var chosen := if mask & 0x80 != 0 then ifSet else ifClear;
    var output := new Word[LIMB_COUNT](_ => 0);
    for i := 0 to LIMB_COUNT
      invariant output[..i] == chosen[..i]
    {
      Masks.MaskWordChooses(ifSet[i], ifClear[i]);
      output[i] := Masks.MaskWord(wordMask, ifSet[i], ifClear[i]);
    }
    assert output[..8] == output[..] && chosen[..8] == chosen;
    r := output[..];
  }

  method SelectJacobian(mask: bv8, ifSet: LimbJacobian, ifClear: LimbJacobian) returns (r: LimbJacobian)
    ensures r == if mask & 0x80 != 0 then ifSet else ifClear
  {
    assert mask >= 0x80 <==> mask & 0x80 != 0;
    var infinityMask := Select(mask, BoolMask(ifSet.infinity), BoolMask(ifClear.infinity));
    var x := SelectU256(mask, ifSet.x, ifClear.x);
    var y := SelectU256(mask, ifSet.y, ifClear.y);
    var z := SelectU256(mask, ifSet.z, ifClear.z);
    r := LimbJacobian(x, y, z, infinityMask != 0);
  }

  lemma BitMaskValue(bit: nat)
    requires bit <= 1
    ensures Masks.BitMask(bit) == if bit == 1 then 0xFF else 0x00
  {
  }

  /** k with the top `done` bits of the byte appended. */
  function BytePrefix(k: nat, byte: Byte, done: nat): nat
    requires done <= 8
  {
    PowPositive(2, done);
    PowPositive(2, 8 - done);
    MulBound(0, k, 0, Pow(2, done));
    k * Pow(2, done) + byte / Pow(2, 8 - done)
  }

  lemma BytePrefixEnds(k: nat, byte: Byte)
    ensures BytePrefix(k, byte, 0) == k && BytePrefix(k, byte, 8) == 256 * k + byte
  {
    Powers();
  }

  lemma Powers()
    ensures Pow(2, 0) == 1 && Pow(2, 8) == 256
  {
  }

  lemma BytePrefixStep(k: nat, byte: Byte, done: nat)
    requires done < 8
    ensures BytePrefix(k, byte, done + 1) == 2 * BytePrefix(k, byte, done) + Bit(byte, 7 - done)
  {
    ShiftStep(byte, 8 - done);
    PowStep(2, done);
    hide Pow;
    hide Bit;
    assert k * (2 * Pow(2, done)) == 2 * (k * Pow(2, done));
  }

  /** A doubling, then an addition that a mask keeps or discards. */
  method MultiplyBit(result: LimbJacobian, bit: nat, addend: LimbAffine, ghost q: AffinePoint, ghost k: nat)
    returns (r: LimbJacobian)
    requires GroupLaw() && OnCurve(CURVE, q) && AffineValue(addend) == q && ReducedAffine(addend) && bit <= 1
    requires ReducedJacobian(result) && Represents(CURVE, JacobianValue(result), Mul(CURVE, k, q))
    ensures ReducedJacobian(r) && Represents(CURVE, JacobianValue(r), Mul(CURVE, 2 * k + bit, q))
  {
    hide *;
    GroupIsCurve();
    MulOne(CURVE, q);
    var doubled := LimbDouble(result);
    DoubleStep(JacobianValue(result), q, k);
    var added := LimbAddMixed(doubled, addend);
    AddStep(JacobianValue(doubled), q, 2 * k, 1);
    BitMaskValue(bit);
    r := SelectJacobian(Masks.BitMask(bit), added, doubled);
  }

  method MultiplyByte(result: LimbJacobian, byte: Byte, addend: LimbAffine, ghost q: AffinePoint, ghost k: nat)
    returns (r: LimbJacobian)
    requires GroupLaw() && OnCurve(CURVE, q) && AffineValue(addend) == q && ReducedAffine(addend)
    requires ReducedJacobian(result) && Represents(CURVE, JacobianValue(result), Mul(CURVE, k, q))
    ensures ReducedJacobian(r) && Represents(CURVE, JacobianValue(r), Mul(CURVE, 256 * k + byte, q))
  {
    hide *;
    GroupIsCurve();
    BytePrefixEnds(k, byte);
    r := result;
    for bit := 8 downto 0
      invariant ReducedJacobian(r) && Represents(CURVE, JacobianValue(r), Mul(CURVE, BytePrefix(k, byte, 8 - bit), q))
    {
      BytePrefixStep(k, byte, 7 - bit);
      r := MultiplyBit(r, Bit(byte, bit), addend, q, BytePrefix(k, byte, 7 - bit));
    }
  }

  lemma BePrefix(s: seq<Byte>, i: nat)
    requires i < |s|
    ensures Be(s[..i + 1]) == 256 * Be(s[..i]) + s[i]
  {
    assert s[..i + 1] == s[..i] + [s[i]];
    BeSnoc(s[..i], s[i]);
  }

  /** The multiple every multiplication of this curve is meant to return. */
  function Multiple(scalar: seq<Byte>, q: AffinePoint): P256Point
    requires GroupLaw() && OnCurve(CURVE, q)
  {
    MulOnCurve(CURVE, Be(scalar), q);
    PointNonnegative(Mul(CURVE, Be(scalar), q));
    Encode(Mul(CURVE, Be(scalar), q))
  }

  lemma PointNonnegative(q: AffinePoint)
    requires OnCurve(CURVE, q)
    ensures q.infinity || (q.x >= 0 && q.y >= 0)
  {
    hide SatisfiesEquation;
  }

  /** For every scalar string, of any length: the multiple by the number it denotes. */
  method ScalarMultiplyBranchFree(scalar: seq<Byte>, point: P256Point) returns (r: Result<P256Point>)
    requires GroupLaw()
    ensures point.infinity ==> r == Ok(POINT_AT_INFINITY)
    ensures !point.infinity && !ValidPoint(point) ==> r.Err?
    ensures ValidPoint(point) ==> r == Ok(Multiple(scalar, Coordinates(point)))
  {
    if point.infinity {
      return Ok(POINT_AT_INFINITY);
    }
    var addend := RequireAffineOnCurve(point);
    if addend.IsFailure() {
      return addend.PropagateFailure();
    }
    ghost var q := Coordinates(point);
    hide *;
    var result := LimbInfinity();
    StartRepresents(q);
    EmptyScalar(scalar);
    for i := 0 to |scalar|
      invariant ReducedJacobian(result) && Represents(CURVE, JacobianValue(result), Mul(CURVE, Be(scalar[..i]), q))
    {
      result := MultiplyByte(result, scalar[i], addend.value, q, Be(scalar[..i]));
      BePrefix(scalar, i);
    }
    var output := Finish(result, scalar, q);
    r := Ok(output);
  }

  lemma EmptyScalar(scalar: seq<Byte>)
    ensures Be(scalar[..0]) == 0 && scalar[..|scalar|] == scalar
  {
  }

  method Finish(result: LimbJacobian, ghost scalar: seq<Byte>, ghost q: AffinePoint) returns (r: P256Point)
    requires GroupLaw() && OnCurve(CURVE, q) && ReducedJacobian(result)
    requires Represents(CURVE, JacobianValue(result), Mul(CURVE, Be(scalar), q))
    ensures r == Multiple(scalar, q)
  {
    hide *;
    GroupIsCurve();
    var affine := LimbToAffine(result);
    MulOnCurve(CURVE, Be(scalar), q);
    ToAffineCorrect(CURVE, JacobianValue(result), Mul(CURVE, Be(scalar), q));
    r := MakePoint(affine);
    MultipleIs(scalar, q);
  }

  lemma MultipleIs(scalar: seq<Byte>, q: AffinePoint)
    requires GroupLaw() && OnCurve(CURVE, q)
    ensures var m := Mul(CURVE, Be(scalar), q);
            (m.infinity || (m.x >= 0 && m.y >= 0)) && Multiple(scalar, q) == Encode(m)
  {
    hide SatisfiesEquation;
    MulOnCurve(CURVE, Be(scalar), q);
  }

  // ----- four bits at a time, from a table of the base point -----

  lemma BasePoint()
    requires GroupLaw()
    ensures OnCurve(CURVE, G) && IsCurve(CURVE)
  {
    GroupIsCurve();
    BasePointOnCurve();
  }

  function BaseMultiple(i: nat): P256Point
    requires GroupLaw()
  {
    BasePoint();
    MulOnCurve(CURVE, i, G);
    Encode(Mul(CURVE, i, G))
  }

  lemma BaseMultipleIs(i: nat)
    requires GroupLaw()
    ensures OnCurve(CURVE, Mul(CURVE, i, G))
    ensures Coordinates(BaseMultiple(i)) == Mul(CURVE, i, G)
    ensures ValidPoint(BaseMultiple(i)) <==> !Mul(CURVE, i, G).infinity
    ensures BaseMultiple(i).infinity <==> Mul(CURVE, i, G).infinity
    ensures !BaseMultiple(i).infinity ==> |BaseMultiple(i).x| == 32 && |BaseMultiple(i).y| == 32
  {
    BasePoint();
    MulOnCurve(CURVE, i, G);
    EncodingBijective(Mul(CURVE, i, G));
    hide SatisfiesEquation;
    hide Be;
    hide Mul;
  }

  lemma SmallMultiples()
    requires GroupLaw()
    ensures BaseMultiple(0) == POINT_AT_INFINITY && BaseMultiple(1) == Encode(G)
    ensures AffineValue(LimbAffine(GX_VALUE, GY_VALUE, false)) == G
  {
    GeneratorValue();
    hide Spelled;
    hide Val;
    MulStep(CURVE, 0, G);
    MulOne(CURVE, G);
    hide Add;
    hide Be;
    hide ToBe;
  }

  lemma GeneratorValue()
    ensures AffineValue(LimbAffine(GX_VALUE, GY_VALUE, false)) == G
  {
    ConstantsAgree();
    hide Spelled;
    hide Val;
  }

  /** Entry i of the window table is i * G. */
  method BasePointWindowTable() returns (table: seq<P256Point>)
    requires GroupLaw()
    ensures |table| == 16 && forall i :: 0 <= i < 16 ==> table[i] == BaseMultiple(i)
  {
    hide *;
    SmallMultiples();
    var base := MakePoint(LimbAffine(GX_VALUE, GY_VALUE, false));
    table := [POINT_AT_INFINITY, base];
    for i := 2 to 16
      invariant |table| == i && forall k :: 0 <= k < i ==> table[k] == BaseMultiple(k)
    {
      BaseMultipleIs(i - 1);
      BaseMultipleIs(1);
      BaseMultipleStep(i - 1);
      var next := PointAdd(table[i - 1], table[1]);
      table := table + [next.value];
    }
  }

  lemma BaseMultipleStep(i: nat)
    requires GroupLaw()
    ensures var sum := Add(CURVE, Mul(CURVE, i, G), Mul(CURVE, 1, G));
            (sum.infinity || (sum.x >= 0 && sum.y >= 0)) && BaseMultiple(i + 1) == Encode(sum)
  {
    MulOne(CURVE, G);
    BasePoint();
    MulOnCurve(CURVE, i + 1, G);
    hide SatisfiesEquation;
    hide Add;
  }

  function PointCoordinateByte(point: P256Point, xCoordinate: bool, index: nat): Byte
    requires point.infinity || (index < |point.x| && index < |point.y|)
  {
    if point.infinity then 0 else (if xCoordinate then point.x else point.y)[index]
  }

  predicate FullWidth(point: P256Point) {
    point.infinity || (|point.x| == 32 && |point.y| == 32)
  }

  /** Overwrites both coordinates, byte by byte, exactly when the mask is set. */
  method SelectEntry(mask: bv8, entry: P256Point, x: array<Byte>, y: array<Byte>)
    requires (mask == 0xFF || mask == 0x00) && FullWidth(entry)
    requires x != y && x.Length == 32 && y.Length == 32
    modifies x, y
    ensures mask == 0x00 ==> x[..] == old(x[..]) && y[..] == old(y[..])
    ensures mask == 0xFF ==> Holds(entry, x[..], y[..])
  {
    for i := 0 to COORDINATE_SIZE
      invariant mask == 0x00 ==> x[..] == old(x[..]) && y[..] == old(y[..])
      invariant mask == 0xFF ==> forall k :: 0 <= k < i ==> x[k] == PointCoordinateByte(entry, true, k)
      invariant mask == 0xFF ==> forall k :: 0 <= k < i ==> y[k] == PointCoordinateByte(entry, false, k)
    {
      SelectByteSpec(PointCoordinateByte(entry, true, i), x[i]);
      SelectByteSpec(PointCoordinateByte(entry, false, i), y[i]);
      x[i] := SelectByte(mask, PointCoordinateByte(entry, true, i), x[i]);
      y[i] := SelectByte(mask, PointCoordinateByte(entry, false, i), y[i]);
    }
  }

  predicate Holds(entry: P256Point, x: seq<Byte>, y: seq<Byte>)
    requires FullWidth(entry) && |x| == 32 && |y| == 32
  {
    && (forall k :: 0 <= k < 32 ==> x[k] == PointCoordinateByte(entry, true, k))
    && (forall k :: 0 <= k < 32 ==> y[k] == PointCoordinateByte(entry, false, k))
  }

  function IndexMask(selected: nat, i: nat): (mask: bv8)
    requires selected < 16 && i < 16
    ensures mask == if selected == i then 0xFF else 0x00
  {
    assert (selected as bv8) ^ (i as bv8) == 0 <==> selected as bv8 == i as bv8;
    IsZeroMask((selected as bv8) ^ (i as bv8))
  }

  /** The scan over all sixteen entries returns the one the low four bits name. */
  method BasePointSelectWindow(nibble: Byte) returns (r: P256Point)
    requires GroupLaw()
    ensures r == BaseMultiple(nibble % 16)
  {
    var selectedNibble := nibble % 16;
    var table := BasePointWindowTable();
    var x := new Byte[COORDINATE_SIZE](_ => 0);
    var y := new Byte[COORDINATE_SIZE](_ => 0);
    var infinity: bv8 := 0;
    hide Holds;
    hide BaseMultiple;
    hide GroupLaw;
    BaseMultipleIs(selectedNibble);
    for i := 0 to 16
      invariant i <= selectedNibble ==> infinity == 0
      invariant i > selectedNibble ==> infinity == BoolMask(table[selectedNibble].infinity)
      invariant i > selectedNibble ==> Holds(table[selectedNibble], x[..], y[..])
    {
      BaseMultipleIs(i);
      var mask := IndexMask(selectedNibble, i);
      infinity := Select(mask, BoolMask(table[i].infinity), infinity);
      SelectEntry(mask, table[i], x, y);
    }
    if infinity != 0 {
      InfiniteMultiple(selectedNibble);
      return POINT_AT_INFINITY;
    }
    r := P256Point(x[..], y[..], false);
    HoldsWhole(table[selectedNibble], x[..], y[..]);
  }

  lemma InfiniteMultiple(i: nat)
    requires GroupLaw() && BaseMultiple(i).infinity
    ensures BaseMultiple(i) == POINT_AT_INFINITY
  {
  }

  lemma HoldsWhole(entry: P256Point, x: seq<Byte>, y: seq<Byte>)
    requires !entry.infinity && FullWidth(entry) && |x| == 32 && |y| == 32 && Holds(entry, x, y)
    ensures P256Point(x, y, false) == entry
  {
    assert x == entry.x && y == entry.y;
  }

  /** Four doublings and one table entry: k becomes 16k + nibble. */
  method MultiplyNibble(result: LimbJacobian, nibble: Byte, ghost k: nat) returns (r: LimbJacobian)
    requires GroupLaw() && nibble < 16
    requires ReducedJacobian(result) && Represents(CURVE, JacobianValue(result), Mul(CURVE, k, G))
    ensures ReducedJacobian(r) && Represents(CURVE, JacobianValue(r), Mul(CURVE, 16 * k + nibble, G))
  {
    hide *;
    BasePoint();
    r := result;
    ghost var n := k;
    for i := 0 to 4
      invariant n == k * (if i == 0 then 1 else if i == 1 then 2 else if i == 2 then 4 else if i == 3 then 8 else 16)
      invariant ReducedJacobian(r) && Represents(CURVE, JacobianValue(r), Mul(CURVE, n, G))
    {
      DoubleStep(JacobianValue(r), G, n);
      r := LimbDouble(r);
      n := 2 * n;
    }
    var selected := BasePointSelectWindow(nibble);
    BaseMultipleIs(nibble);
    EntryLoads(nibble);
    var affine := LoadAffine(selected);
    AddStep(JacobianValue(r), G, n, nibble);
    r := LimbAddMixed(r, affine.value);
  }

  lemma EntryLoads(i: nat)
    requires GroupLaw()
    ensures var point := BaseMultiple(i);
            point.infinity || (|point.x| == 32 && |point.y| == 32 && Be(point.x) < P && Be(point.y) < P)
  {
    BaseMultipleIs(i);
    hide SatisfiesEquation;
    hide BaseMultiple;
    hide Be;
  }

  /** The windowed multiple of the base point: both nibbles of every byte, high one first. */
  method BasePointMultiplyWindowed(scalar: seq<Byte>) returns (r: Result<P256Point>)
    requires GroupLaw()
    ensures OnCurve(CURVE, G) && r == Ok(Multiple(scalar, G))
  {
    hide *;
    BasePoint();
    var result := LimbInfinity();
    StartRepresents(G);
    EmptyScalar(scalar);
    for i := 0 to |scalar|
      invariant ReducedJacobian(result) && Represents(CURVE, JacobianValue(result), Mul(CURVE, Be(scalar[..i]), G))
    {
      ghost var k := Be(scalar[..i]);
      var byte := scalar[i];
      var high: Byte, low: Byte := byte / 16, byte % 16;
      result := MultiplyNibble(result, high, k);
      result := MultiplyNibble(result, low, 16 * k + high);
      BePrefix(scalar, i);
      assert 16 * (16 * k + high) + low == 256 * k + byte;
    }
    var output := Finish(result, scalar, G);
    r := Ok(output);
  }

  // ----- arithmetic modulo the group order -----

  method ScalarFromBeReduced(bytes: seq<Byte>) returns (r: Result<U256>)
    ensures r.Ok? <==> Be(bytes) < RADIX
    ensures r.Ok? ==> Val(r.value) == Be(bytes) % N
  {
    hide Val;
    hide Be;
    ConstantsAgree();
    var value := U256FromBe(bytes);
    if value.IsFailure() {
      return value;
    }
    var reduced := Reduce256(value.value, N_VALUE);
    r := Ok(reduced);
  }

  /** The inverse modulo the order, when that is prime, by the power n - 2. */
  method ScalarInverse(scalar: seq<Byte>) returns (r: Result<seq<Byte>>)
    ensures r.Ok? <==> Be(scalar) < RADIX && Be(scalar) % N != 0
    ensures r.Ok? ==> BigInt.IsMinimalBe(r.value, FInv(N, Be(scalar) % N))
    ensures r.Ok? && IsPrime(N) ==> Cong(Be(scalar) * Be(r.value), 1, N)
  {
    hide Val;
    hide Be;
    hide Pow;
    ConstantsAgree();
    var reduced := ScalarFromBeReduced(scalar);
    if reduced.IsFailure() {
      return reduced.PropagateFailure();
    }
    var zero := P256Limbs.IsZero(reduced.value);
    if zero {
      return Err(InvalidArgument);
    }
    var inverse := ModExp(reduced.value, N_MINUS_TWO_VALUE, N_VALUE);
    var bytes := ToBeBytesMinimal(inverse);
    InverseOfReduced(Be(scalar));
    r := Ok(bytes);
  }

  lemma InverseOfReduced(s: nat)
    requires s % N != 0
    ensures IsPrime(N) ==> Cong(s * FInv(N, s % N), 1, N)
  {
    hide FInv;
    if IsPrime(N) {
      CongMod(s, N);
      hide Cong;
      ModSmall(s % N, N);
      FInvCorrect(N, s % N);
      InverseCong(s, s % N, FInv(N, s % N), N);
    }
  }

  lemma InverseCong(s: int, s': int, i: int, m: int)
    requires m > 0 && Cong(s', s, m) && Cong(s' * i, 1, m)
    ensures Cong(s * i, 1, m)
  {
    CongMul(s', s, i, i, m);
  }

  method ScalarAddMod(lhs: seq<Byte>, rhs: seq<Byte>) returns (r: Result<seq<Byte>>)
    ensures r.Ok? <==> Be(lhs) < RADIX && Be(rhs) < RADIX
    ensures r.Ok? ==> BigInt.IsMinimalBe(r.value, (Be(lhs) + Be(rhs)) % N)
  {
    hide Val;
    hide Be;
    ConstantsAgree();
    var left := ScalarFromBeReduced(lhs);
    if left.IsFailure() {
      return left.PropagateFailure();
    }
    var right := ScalarFromBeReduced(rhs);
    if right.IsFailure() {
      return right.PropagateFailure();
    }
    var sum := ModAdd(left.value, right.value, N_VALUE);
    var bytes := ToBeBytesMinimal(sum);
    ReducedOperands(Be(lhs), Be(rhs), N);
    r := Ok(bytes);
  }

  lemma ReducedOperands(a: int, b: int, m: int)
    requires m > 0
    ensures (a % m + b % m) % m == (a + b) % m && ((a % m) * (b % m)) % m == (a * b) % m
  {
    CongMod(a, m);
    CongMod(b, m);
    CongAdd(a % m, a, b % m, b, m);
    CongMul(a % m, a, b % m, b, m);
  }

  method ScalarMultiplyMod(lhs: seq<Byte>, rhs: seq<Byte>) returns (r: Result<seq<Byte>>)
    ensures r.Ok? <==> Be(lhs) < RADIX && Be(rhs) < RADIX
    ensures r.Ok? ==> BigInt.IsMinimalBe(r.value, (Be(lhs) * Be(rhs)) % N)
  {
    hide Val;
    hide Be;
    ConstantsAgree();
    var left := ScalarFromBeReduced(lhs);
    if left.IsFailure() {
      return left.PropagateFailure();
    }
    var right := ScalarFromBeReduced(rhs);
    if right.IsFailure() {
      return right.PropagateFailure();
    }
    var product := ModMultiply(left.value, right.value, N_VALUE);
    var bytes := ToBeBytesMinimal(product);
    ReducedOperands(Be(lhs), Be(rhs), N);
    r := Ok(bytes);
  }

  method ScalarReduceFixed32(scalar: seq<Byte>) returns (r: Result<seq<Byte>>)
    ensures r.Ok? <==> Be(scalar) < RADIX
    ensures r.Ok? ==> r.value == ToBe(Be(scalar) % N, 32)
  {
    hide Val;
    hide Be;
    var reduced := ScalarFromBeReduced(scalar);
    if reduced.IsFailure() {
      return reduced.PropagateFailure();
    }
    var bytes := ToBeBytesFixed(reduced.value);
    r := Ok(bytes);
  }

  method XModOrder(point: P256Point) returns (r: Result<seq<Byte>>)
    ensures r.Ok? <==> ValidPoint(point)
    ensures r.Ok? ==> BigInt.IsMinimalBe(r.value, Coordinates(point).x % N)
  {
    hide Val;
    ConstantsAgree();
    var affine := RequireAffineOnCurve(point);
    if affine.IsFailure() {
      return affine.PropagateFailure();
    }
    var reduced := Reduce256(affine.value.x, N_VALUE);
    var bytes := ToBeBytesMinimal(reduced);
    r := Ok(bytes);
  }

  method ScalarIsValidNonzero(scalar: seq<Byte>) returns (r: bool)
    ensures r <==> 0 < Be(scalar) < N
  {
    hide Val;
    hide Be;
    ConstantsAgree();
    U256Bound(N_VALUE);
    var value := U256FromBe(scalar);
    if value.IsFailure() {
      return false;
    }
    var zero := P256Limbs.IsZero(value.value);
    var order := P256Limbs.Compare(value.value, N_VALUE);
    r := !zero && order < 0;
  }
}
