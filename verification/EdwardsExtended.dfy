/** Extended coordinates x = X/Z, y = Y/Z, xy = T/Z on a twisted Edwards curve: the addition formulas of
    `src/ed25519.cpp`, the points they stand for, and multiples by double and add. */
module EdwardsExtended {
  import opened NumberTheory
  import opened PrimeField
  import opened Edwards
  import opened Digits
  import BigIntPower

  datatype ExtendedPoint = ExtendedPoint(x: int, y: int, z: int, t: int)

  const EXTENDED_IDENTITY := ExtendedPoint(0, 1, 1, 0)

  function MakeAffinePoint(c: EdwardsCurve, x: int, y: int): ExtendedPoint
    requires c.p > 1
  {
    ExtendedPoint(x, y, 1, FMul(c.p, x, y))
  }

  /** `point_add`. */
  function PointAdd(c: EdwardsCurve, lhs: ExtendedPoint, rhs: ExtendedPoint): ExtendedPoint
    requires c.p > 1
  {
    var p := c.p;
    var y1MinusX1 := FSub(p, lhs.y, lhs.x);
    var y2MinusX2 := FSub(p, rhs.y, rhs.x);
    var y1PlusX1 := FAdd(p, lhs.y, lhs.x);
    var y2PlusX2 := FAdd(p, rhs.y, rhs.x);
    var twoD := FAdd(p, c.d, c.d);
    var twoZ1 := FAdd(p, lhs.z, lhs.z);
    var a := FMul(p, y1MinusX1, y2MinusX2);
    var b := FMul(p, y1PlusX1, y2PlusX2);
    var c0 := FMul(p, lhs.t, rhs.t);
    var d0 := FMul(p, twoZ1, rhs.z);
    var cc := FMul(p, c0, twoD);
    var e := FSub(p, b, a);
    var f := FSub(p, d0, cc);
    var g := FAdd(p, d0, cc);
    var h := FAdd(p, b, a);
    ExtendedPoint(FMul(p, e, f), FMul(p, g, h), FMul(p, f, g), FMul(p, e, h))
  }

  /** `points_equal`: equality of the fractions, by cross multiplication. */
  predicate PointsEqual(c: EdwardsCurve, lhs: ExtendedPoint, rhs: ExtendedPoint)
    requires c.p > 1
  {
    && FMul(c.p, lhs.x, rhs.z) == FMul(c.p, rhs.x, lhs.z)
    && FMul(c.p, lhs.y, rhs.z) == FMul(c.p, rhs.y, lhs.z)
  }

  // ----- the affine point behind an extended one -----

  ghost predicate Represents(c: EdwardsCurve, e: ExtendedPoint, q: EdPoint)
    requires c.p > 0
  {
    && InField(c.p, e.x) && InField(c.p, e.y) && InField(c.p, e.z) && InField(c.p, e.t) && e.z != 0
    && Cong(e.x, q.x * e.z, c.p) && Cong(e.y, q.y * e.z, c.p) && Cong(e.t, q.x * q.y * e.z, c.p)
  }

  lemma AffineRepresents(c: EdwardsCurve, q: EdPoint)
    requires c.p > 1 && InField(c.p, q.x) && InField(c.p, q.y)
    ensures Represents(c, MakeAffinePoint(c, q.x, q.y), q)
  {
    CongMod(q.x * q.y, c.p);
  }

  /** The eight intermediate values of the addition as polynomials. */
  lemma AddValues(c: EdwardsCurve, l: ExtendedPoint, r: ExtendedPoint) returns (e: int, f: int, g: int, h: int)
    requires c.p > 1
    ensures Cong(e, 2 * (l.x * r.y + r.x * l.y), c.p) && Cong(h, 2 * (l.y * r.y + l.x * r.x), c.p)
    ensures Cong(f, 2 * (l.z * r.z) - 2 * (c.d * (l.t * r.t)), c.p)
    ensures Cong(g, 2 * (l.z * r.z) + 2 * (c.d * (l.t * r.t)), c.p)
    ensures PointAdd(c, l, r) == ExtendedPoint(FMul(c.p, e, f), FMul(c.p, g, h), FMul(c.p, f, g), FMul(c.p, e, h))
  {
    var p := c.p;
    var m1, m2, s1, s2 := FSub(p, l.y, l.x), FSub(p, r.y, r.x), FAdd(p, l.y, l.x), FAdd(p, r.y, r.x);
    var twoD, twoZ1 := FAdd(p, c.d, c.d), FAdd(p, l.z, l.z);
    var a, b := FMul(p, m1, m2), FMul(p, s1, s2);
    var c0, d0 := FMul(p, l.t, r.t), FMul(p, twoZ1, r.z);
    var cc := FMul(p, c0, twoD);
    e, f, g, h := FSub(p, b, a), FSub(p, d0, cc), FAdd(p, d0, cc), FAdd(p, b, a);
    hide FAdd;
    hide FSub;
    hide FMul;
    hide Cong;
    Selves(l, r, c.d, p);
    FSubCong(p, l.y, l.y, l.x, l.x);
    FSubCong(p, r.y, r.y, r.x, r.x);
    FAddCong(p, l.y, l.y, l.x, l.x);
    FAddCong(p, r.y, r.y, r.x, r.x);
    FAddCong(p, c.d, c.d, c.d, c.d);
    FAddCong(p, l.z, l.z, l.z, l.z);
    FMulCong(p, m1, l.y - l.x, m2, r.y - r.x);
    FMulCong(p, s1, l.y + l.x, s2, r.y + r.x);
    FMulCong(p, l.t, l.t, r.t, r.t);
    FMulCong(p, twoZ1, l.z + l.z, r.z, r.z);
    FMulCong(p, c0, l.t * r.t, twoD, c.d + c.d);
    FSubCong(p, b, (l.y + l.x) * (r.y + r.x), a, (l.y - l.x) * (r.y - r.x));
    FAddCong(p, b, (l.y + l.x) * (r.y + r.x), a, (l.y - l.x) * (r.y - r.x));
    FSubCong(p, d0, (l.z + l.z) * r.z, cc, l.t * r.t * (c.d + c.d));
    FAddCong(p, d0, (l.z + l.z) * r.z, cc, l.t * r.t * (c.d + c.d));
    ProductsOfSums(l.x, l.y, r.x, r.y);
    DoubledProducts(l.z, r.z, l.t, r.t, c.d);
  }

  lemma Selves(l: ExtendedPoint, r: ExtendedPoint, d: int, p: int)
    requires p > 0
    ensures Cong(l.x, l.x, p) && Cong(l.y, l.y, p) && Cong(l.z, l.z, p) && Cong(l.t, l.t, p)
    ensures Cong(r.x, r.x, p) && Cong(r.y, r.y, p) && Cong(r.z, r.z, p) && Cong(r.t, r.t, p) && Cong(d, d, p)
  {
  }

  lemma ProductsOfSums(x1: int, y1: int, x2: int, y2: int)
    ensures (y1 + x1) * (y2 + x2) - (y1 - x1) * (y2 - x2) == 2 * (x1 * y2 + x2 * y1)
    ensures (y1 + x1) * (y2 + x2) + (y1 - x1) * (y2 - x2) == 2 * (y1 * y2 + x1 * x2)
  {
  }

  lemma DoubledProducts(z1: int, z2: int, t1: int, t2: int, d: int)
    ensures (z1 + z1) * z2 == 2 * (z1 * z2) && t1 * t2 * (d + d) == 2 * (d * (t1 * t2))
  {
  }

  /** The intermediate values over the common factor u = 2 Z1 Z2. */
  lemma ScaledValues(c: EdwardsCurve, l: ExtendedPoint, r: ExtendedPoint, q: EdPoint, s: EdPoint)
    requires c.p > 1 && Represents(c, l, q) && Represents(c, r, s)
    ensures var u, e := 2 * (l.z * r.z), Epsilon(c, q, s);
            && Cong(2 * (l.x * r.y + r.x * l.y), (q.x * s.y + s.x * q.y) * u, c.p)
            && Cong(2 * (l.y * r.y + l.x * r.x), (q.y * s.y + q.x * s.x) * u, c.p)
            && Cong(2 * (c.d * (l.t * r.t)), e * u, c.p)
  {
    hide Cong;
    var p, z := c.p, l.z * r.z;
    ProductScales(l.x, q.x, l.z, r.y, s.y, r.z, p);
    ProductScales(r.x, s.x, r.z, l.y, q.y, l.z, p);
    ProductScales(l.y, q.y, l.z, r.y, s.y, r.z, p);
    ProductScales(l.x, q.x, l.z, r.x, s.x, r.z, p);
    ProductScales(l.t, q.x * q.y, l.z, r.t, s.x * s.y, r.z, p);
    assert r.z * l.z == z;
    SumScales(l.x * r.y, q.x * s.y, r.x * l.y, s.x * q.y, z, p);
    SumScales(l.y * r.y, q.y * s.y, l.x * r.x, q.x * s.x, z, p);
    CongSelf(2 * c.d, p);
    CongMul(2 * c.d, 2 * c.d, l.t * r.t, q.x * q.y * (s.x * s.y) * z, p);
    EpsilonScales(c.d, q.x * q.y * (s.x * s.y), z, l.t * r.t);
  }

  lemma EpsilonScales(d: int, m: int, z: int, t: int)
    ensures 2 * d * (m * z) == d * m * (2 * z) && 2 * d * t == 2 * (d * t)
  {
  }

  lemma ProductScales(a: int, a': int, z: int, b: int, b': int, z': int, p: int)
    requires p > 0 && Cong(a, a' * z, p) && Cong(b, b' * z', p)
    ensures Cong(a * b, a' * b' * (z * z'), p)
  {
    CongMul(a, a' * z, b, b' * z', p);
    MulSwap(a', z, b', z');
  }

  lemma SumScales(a: int, a': int, b: int, b': int, z: int, p: int)
    requires p > 0 && Cong(a, a' * z, p) && Cong(b, b' * z, p)
    ensures Cong(2 * (a + b), (a' + b') * (2 * z), p)
  {
    CongAdd(a, a' * z, b, b' * z, p);
    CongMul(2, 2, a + b, a' * z + b' * z, p);
    assert 2 * (a' * z + b' * z) == (a' + b') * (2 * z);
  }

  /** With E = n1 u, H = n2 u, F = (1 - e) u, G = (1 + e) u, the products are the sum over Z3 = F G. */
  lemma ProductsRepresent(c: EdwardsCurve, s: EdPoint, n1: int, n2: int, ep: int, u: int, e: int, f: int, g: int, h: int)
    requires IsEdwards(c) && u % c.p != 0 && (1 + ep) % c.p != 0 && (1 - ep) % c.p != 0
    requires Cong(s.x * (1 + ep), n1, c.p) && Cong(s.y * (1 - ep), n2, c.p)
    requires Cong(e, n1 * u, c.p) && Cong(h, n2 * u, c.p)
    requires Cong(f, (1 - ep) * u, c.p) && Cong(g, (1 + ep) * u, c.p)
    ensures Represents(c, ExtendedPoint(FMul(c.p, e, f), FMul(c.p, g, h), FMul(c.p, f, g), FMul(c.p, e, h)), s)
  {
    EdwardsFacts(c);
    hide IsEdwards;
    hide Cong;
    hide FMul;
    var p, a, b := c.p, 1 + ep, 1 - ep;
    FMulCong(p, e, n1 * u, f, b * u);
    FMulCong(p, g, a * u, h, n2 * u);
    FMulCong(p, f, b * u, g, a * u);
    FMulCong(p, e, n1 * u, h, n2 * u);
    var w, z3 := b * u * (a * u), FMul(p, f, g);
    NonzeroFactors(p, a, b, u);
    FZero(p, z3, w);
    Coordinate(s.x, a, n1, u, b * u, z3, p);
    Coordinate(s.y, b, n2, u, a * u, z3, p);
    assert a * u * (b * u) == w;
    CongChain(FMul(p, e, f), n1 * u * (b * u), s.x * z3, p);
    assert a * u * (n2 * u) == n2 * u * (a * u);
    CongChain(FMul(p, g, h), n2 * u * (a * u), s.y * z3, p);
    ProductCoordinate(s.x, s.y, a, b, n1, n2, u, z3, p);
    CongChain(FMul(p, e, h), n1 * u * (n2 * u), s.x * s.y * z3, p);
  }

  lemma NonzeroFactors(p: int, a: int, b: int, u: int)
    requires IsPrime(p) && a % p != 0 && b % p != 0 && u % p != 0
    ensures (b * u * (a * u)) % p != 0
  {
    NonzeroProduct(p, b, u);
    NonzeroProduct(p, a, u);
    NonzeroProduct(p, b * u, a * u);
  }

  /** x a = n and z3 = (a u) v give x z3 = (n u) v. */
  lemma Coordinate(x: int, a: int, n: int, u: int, v: int, z3: int, p: int)
    requires p > 0 && Cong(x * a, n, p) && Cong(z3, a * u * v, p)
    ensures Cong(x * z3, n * u * v, p)
  {
    CongMul(x, x, z3, a * u * v, p);
    CongMul(x * a, n, u * v, u * v, p);
    assert x * (a * u * v) == x * a * (u * v) && n * u * v == n * (u * v);
  }

  lemma ProductCoordinate(x: int, y: int, a: int, b: int, n1: int, n2: int, u: int, z3: int, p: int)
    requires p > 0 && Cong(x * a, n1, p) && Cong(y * b, n2, p) && Cong(z3, b * u * (a * u), p)
    ensures Cong(x * y * z3, n1 * u * (n2 * u), p)
  {
    hide Cong;
    CongSelf(x * y, p);
    CongSelf(u * u, p);
    CongMul(x * a, n1, y * b, n2, p);
    CongMul(x * y, x * y, z3, b * u * (a * u), p);
    CongMul(x * a * (y * b), n1 * n2, u * u, u * u, p);
    MulSwap(n1, u, n2, u);
    RegroupProduct(x, y, a, b, u);
    CongTrans(x * y * z3, x * a * (y * b) * (u * u), n1 * n2 * (u * u), p);
  }

  lemma RegroupProduct(x: int, y: int, a: int, b: int, u: int)
    ensures x * y * (b * u * (a * u)) == x * a * (y * b) * (u * u)
  {
    MulSwap(b, u, a, u);
    MulSwap(x, a, y, b);
    var m, n := x * y, u * u;
    assert m * (b * a * n) == m * (a * b) * n;
  }

  /** The formulas represent the sum for every two points of the curve, equal or not; Z3 is never 0. */
  lemma AddRepresents(c: EdwardsCurve, l: ExtendedPoint, r: ExtendedPoint, q: EdPoint, s: EdPoint)
    requires IsEdwards(c) && OnCurve(c, q) && OnCurve(c, s) && Represents(c, l, q) && Represents(c, r, s)
    ensures Represents(c, PointAdd(c, l, r), Add(c, q, s))
  {
    EdwardsFacts(c);
    hide IsEdwards;
    hide OnCurve;
    hide Add;
    hide PointAdd;
    hide FMul;
    hide Epsilon;
    var p, ep, u := c.p, Epsilon(c, q, s), 2 * (l.z * r.z);
    var n1, n2 := q.x * s.y + s.x * q.y, q.y * s.y + q.x * s.x;
    var e, f, g, h := AddValues(c, l, r);
    ScaledValues(c, l, r, q, s);
    UnitNonzero(p, l.z, r.z);
    hide Represents;
    hide Cong;
    CongTrans(e, 2 * (l.x * r.y + r.x * l.y), n1 * u, p);
    CongTrans(h, 2 * (l.y * r.y + l.x * r.x), n2 * u, p);
    DenominatorScales(f, g, u, 2 * (c.d * (l.t * r.t)), ep, p);
    SumCoordinates(c, q, s);
    Complete(c, q, s);
    ProductsRepresent(c, Add(c, q, s), n1, n2, ep, u, e, f, g, h);
  }

  lemma DenominatorScales(f: int, g: int, u: int, t: int, ep: int, p: int)
    requires p > 0 && Cong(f, u - t, p) && Cong(g, u + t, p) && Cong(t, ep * u, p)
    ensures Cong(f, (1 - ep) * u, p) && Cong(g, (1 + ep) * u, p)
  {
    CongSub(u, u, t, ep * u, p);
    CongAdd(u, u, t, ep * u, p);
    assert (1 - ep) * u == u - ep * u && (1 + ep) * u == u + ep * u;
  }

  lemma UnitNonzero(p: int, z1: int, z2: int)
    requires IsPrime(p) && p > 2 && InField(p, z1) && InField(p, z2) && z1 != 0 && z2 != 0
    ensures (2 * (z1 * z2)) % p != 0
  {
    ModSmall(2, p);
    NonzeroInField(p, z1);
    NonzeroInField(p, z2);
    NonzeroProduct(p, z1, z2);
    NonzeroProduct(p, 2, z1 * z2);
  }

  /** Cross multiplication compares the affine points. */
  lemma EqualMeansSamePoint(c: EdwardsCurve, l: ExtendedPoint, r: ExtendedPoint, q: EdPoint, s: EdPoint)
    requires IsEdwards(c) && OnCurve(c, q) && OnCurve(c, s) && Represents(c, l, q) && Represents(c, r, s)
    ensures PointsEqual(c, l, r) <==> q == s
  {
    EdwardsFacts(c);
    UnitNonzero(c.p, l.z, r.z);
    NonzeroProduct(c.p, 2, l.z * r.z);
    hide IsEdwards;
    CrossMultiply(c.p, l.x, q.x, l.z, r.x, s.x, r.z);
    CrossMultiply(c.p, l.y, q.y, l.z, r.y, s.y, r.z);
  }

  lemma CrossMultiply(p: int, a: int, a': int, z: int, b: int, b': int, z': int)
    requires IsPrime(p) && InField(p, a') && InField(p, b') && (z * z') % p != 0
    requires Cong(a, a' * z, p) && Cong(b, b' * z', p)
    ensures FMul(p, a, z') == FMul(p, b, z) <==> a' == b'
  {
    hide IsPrime;
    FMulCong(p, a, a' * z, z', z');
    FMulCong(p, b, b' * z', z, z);
    assert a' * z * z' == z * z' * a' && b' * z' * z == z * z' * b';
    if FMul(p, a, z') == FMul(p, b, z) {
      PrimeCancel(p, z * z', a', b');
      FUnique(p, a', b');
    }
    if a' == b' {
      FUnique(p, FMul(p, a, z'), FMul(p, b, z));
    }
  }

  // ----- T Z = X Y and the projective equation -----

  /** What every extended point of the code satisfies. */
  ghost predicate Valid(c: EdwardsCurve, e: ExtendedPoint)
    requires c.p > 0
  {
    && InField(c.p, e.x) && InField(c.p, e.y) && InField(c.p, e.z) && InField(c.p, e.t) && e.z != 0
    && Cong(e.t * e.z, e.x * e.y, c.p)
    && Cong((e.y * e.y - e.x * e.x) * (e.z * e.z), e.z * e.z * (e.z * e.z) + c.d * (e.x * e.x * (e.y * e.y)), c.p)
  }

  lemma RepresentsIsValid(c: EdwardsCurve, e: ExtendedPoint, q: EdPoint)
    requires c.p > 1 && OnCurve(c, q) && Represents(c, e, q)
    ensures Valid(c, e)
  {
    var p, z := c.p, e.z;
    hide Cong;
    CongSelf(z, p);
    CongMul(e.t, q.x * q.y * z, z, z, p);
    ProductScales(e.x, q.x, z, e.y, q.y, z, p);
    assert q.x * q.y * z * z == q.x * q.y * (z * z);
    CongChain(e.t * z, q.x * q.y * (z * z), e.x * e.y, p);
    ProductScales(e.x, q.x, z, e.x, q.x, z, p);
    ProductScales(e.y, q.y, z, e.y, q.y, z, p);
    ProjectiveSides(c, e.x * e.x, q.x * q.x, e.y * e.y, q.y * q.y, z * z, p);
    var w := z * z * (z * z);
    CongSelf(w, p);
    CongMul(q.y * q.y - q.x * q.x, 1 + c.d * (q.x * q.x * (q.y * q.y)), w, w, p);
    CongTrans((e.y * e.y - e.x * e.x) * (z * z), (q.y * q.y - q.x * q.x) * w, (1 + c.d * (q.x * q.x * (q.y * q.y))) * w, p);
    CongChain((e.y * e.y - e.x * e.x) * (z * z), (1 + c.d * (q.x * q.x * (q.y * q.y))) * w,
              w + c.d * (e.x * e.x * (e.y * e.y)), p);
  }

  /** Both sides of the projective equation are the affine sides times Z^4. */
  lemma ProjectiveSides(c: EdwardsCurve, xx: int, xx': int, yy: int, yy': int, zz: int, p: int)
    requires p > 0 && Cong(xx, xx' * zz, p) && Cong(yy, yy' * zz, p)
    ensures Cong((yy - xx) * zz, (yy' - xx') * (zz * zz), p)
    ensures Cong(zz * zz + c.d * (xx * yy), (1 + c.d * (xx' * yy')) * (zz * zz), p)
  {
    hide Cong;
    CongSelf(zz, p);
    CongSelf(zz * zz, p);
    CongSelf(c.d, p);
    CongSub(yy, yy' * zz, xx, xx' * zz, p);
    CongMul(yy - xx, yy' * zz - xx' * zz, zz, zz, p);
    assert (yy' * zz - xx' * zz) * zz == (yy' - xx') * (zz * zz);
    ProductScales(xx, xx', zz, yy, yy', zz, p);
    CongMul(c.d, c.d, xx * yy, xx' * yy' * (zz * zz), p);
    CongAdd(zz * zz, zz * zz, c.d * (xx * yy), c.d * (xx' * yy' * (zz * zz)), p);
    assert (1 + c.d * (xx' * yy')) * (zz * zz) == zz * zz + c.d * (xx' * yy' * (zz * zz)) by {
      MulThree(c.d, xx' * yy', zz * zz);
    }
  }

  /** left = right after cancelling a common unit factor on both sides of an equation. */
  lemma CancelScale(p: int, w: int, l: int, r: int, left: int, right: int)
    requires IsPrime(p) && w % p != 0 && Cong(l, r, p) && Cong(l, left * w, p) && Cong(r, right * w, p)
    ensures Cong(left, right, p)
  {
    hide IsPrime;
    assert left * w == w * left && right * w == w * right;
    PrimeCancel(p, w, left, right);
  }

  lemma ScaledEquation(c: EdwardsCurve, e: ExtendedPoint, q: EdPoint)
    requires IsPrime(c.p) && Valid(c, e) && Cong(e.x, q.x * e.z, c.p) && Cong(e.y, q.y * e.z, c.p)
    ensures Equation(c, q.x, q.y)
  {
    hide IsPrime;
    var p, z := c.p, e.z;
    NonzeroInField(p, z);
    NonzeroProduct(p, z, z);
    NonzeroProduct(p, z * z, z * z);
    hide Cong;
    ProductScales(e.x, q.x, z, e.x, q.x, z, p);
    ProductScales(e.y, q.y, z, e.y, q.y, z, p);
    ProjectiveSides(c, e.x * e.x, q.x * q.x, e.y * e.y, q.y * q.y, z * z, p);
    CancelScale(p, z * z * (z * z), (e.y * e.y - e.x * e.x) * (z * z), z * z * (z * z) + c.d * (e.x * e.x * (e.y * e.y)),
                q.y * q.y - q.x * q.x, 1 + c.d * (q.x * q.x * (q.y * q.y)));
  }

  lemma ScaledProduct(c: EdwardsCurve, e: ExtendedPoint, q: EdPoint)
    requires IsPrime(c.p) && Valid(c, e) && Cong(e.x, q.x * e.z, c.p) && Cong(e.y, q.y * e.z, c.p)
    ensures Cong(e.t, q.x * q.y * e.z, c.p)
  {
    hide IsPrime;
    hide Cong;
    NonzeroInField(c.p, e.z);
    ProductOfScaled(c.p, e.x, e.y, e.z, e.t, q.x, q.y);
  }

  /** T Z = X Y with X = a Z and Y = b Z leaves T = a b Z. */
  lemma ProductOfScaled(p: int, x: int, y: int, z: int, t: int, a: int, b: int)
    requires p > 0 && IsPrime(p) && z % p != 0
    requires Cong(t * z, x * y, p) && Cong(x, a * z, p) && Cong(y, b * z, p)
    ensures Cong(t, a * b * z, p)
  {
    hide IsPrime;
    hide Cong;
    CongSelf(t * z, p);
    ProductScales(x, a, z, y, b, z, p);
    SquareFactor(a * b, z);
    CancelScale(p, z, t * z, x * y, t, a * b * z);
  }

  lemma SquareFactor(m: int, z: int)
    ensures m * (z * z) == m * z * z
  {
  }

  /** Conversely a valid point stands for X/Z, Y/Z, which lies on the curve. */
  lemma ValidHasPoint(c: EdwardsCurve, e: ExtendedPoint) returns (q: EdPoint)
    requires IsEdwards(c) && Valid(c, e)
    ensures OnCurve(c, q) && Represents(c, e, q)
  {
    EdwardsFacts(c);
    hide IsEdwards;
    hide IsPrime;
    var p, z := c.p, e.z;
    q := EdPoint(FMul(p, e.x, FInv(p, z)), FMul(p, e.y, FInv(p, z)));
    NonzeroInField(p, z);
    FDivCorrect(p, e.x, z);
    FDivCorrect(p, e.y, z);
    hide FInv;
    hide FMul;
    CongSymmetric(q.x * z, e.x, p);
    CongSymmetric(q.y * z, e.y, p);
    hide Cong;
    ScaledEquation(c, e, q);
    ScaledProduct(c, e, q);
  }

  lemma CongSymmetric(a: int, b: int, p: int)
    requires p > 0 && Cong(a, b, p)
    ensures Cong(b, a, p)
  {
  }

  /** Addition keeps T Z = X Y, the equation and Z != 0, also for a point added to itself. */
  lemma AddValid(c: EdwardsCurve, l: ExtendedPoint, r: ExtendedPoint)
    requires IsEdwards(c) && Valid(c, l) && Valid(c, r)
    ensures Valid(c, PointAdd(c, l, r))
  {
    hide *;
    EdwardsFacts(c);
    var q := ValidHasPoint(c, l);
    var s := ValidHasPoint(c, r);
    AddRepresents(c, l, r, q, s);
    AddOnCurve(c, q, s);
    RepresentsIsValid(c, PointAdd(c, l, r), Add(c, q, s));
  }

  // ----- multiples -----

  /** The one fact about the group that is taken from outside: addition is associative. */
  ghost predicate Associative(c: EdwardsCurve)
    requires c.p > 1
  {
    forall q, r, s :: OnCurve(c, q) && OnCurve(c, r) && OnCurve(c, s)
      ==> Add(c, Add(c, q, r), s) == Add(c, q, Add(c, r, s))
  }

  lemma Associate(c: EdwardsCurve, q: EdPoint, r: EdPoint, s: EdPoint)
    requires c.p > 1 && Associative(c) && OnCurve(c, q) && OnCurve(c, r) && OnCurve(c, s)
    ensures Add(c, Add(c, q, r), s) == Add(c, q, Add(c, r, s))
  {
  }

  function Mul(c: EdwardsCurve, k: nat, q: EdPoint): EdPoint
    requires c.p > 1
  {
    if k == 0 then IDENTITY else Add(c, Mul(c, k - 1, q), q)
  }

  lemma MulStep(c: EdwardsCurve, k: nat, q: EdPoint)
    requires c.p > 1
    ensures Mul(c, 0, q) == IDENTITY && Mul(c, k + 1, q) == Add(c, Mul(c, k, q), q)
  {
  }

  lemma IdentityOnCurve(c: EdwardsCurve)
    requires c.p > 1
    ensures OnCurve(c, IDENTITY)
  {
  }

  lemma AddIdentity(c: EdwardsCurve, q: EdPoint)
    requires IsEdwards(c) && OnCurve(c, q)
    ensures Add(c, q, IDENTITY) == q && Add(c, IDENTITY, q) == q
  {
    PowOne(c.p - 2);
    ModSmall(1, c.p);
    ModSmall(q.x, c.p);
    ModSmall(q.y, c.p);
    hide Pow;
  }

  lemma {:induction false} MulOnCurve(c: EdwardsCurve, k: nat, q: EdPoint)
    requires IsEdwards(c) && OnCurve(c, q)
    ensures OnCurve(c, Mul(c, k, q))
    decreases k
  {
    hide *;
    EdwardsFacts(c);
    if k == 0 {
      MulStep(c, 0, q);
      IdentityOnCurve(c);
    } else {
      MulOnCurve(c, k - 1, q);
      AddOnCurve(c, Mul(c, k - 1, q), q);
      MulStep(c, k - 1, q);
    }
  }

  lemma MulOne(c: EdwardsCurve, q: EdPoint)
    requires IsEdwards(c) && OnCurve(c, q)
    ensures Mul(c, 1, q) == q
  {
    hide *;
    EdwardsFacts(c);
    MulStep(c, 0, q);
    AddIdentity(c, q);
  }

  lemma {:induction false} MulAdd(c: EdwardsCurve, q: EdPoint, j: nat, k: nat)
    requires IsEdwards(c) && Associative(c) && OnCurve(c, q)
    ensures Add(c, Mul(c, j, q), Mul(c, k, q)) == Mul(c, j + k, q)
    decreases k
  {
    hide *;
    EdwardsFacts(c);
    MulOnCurve(c, j, q);
    AddIdentity(c, Mul(c, j, q));
    MulStep(c, 0, q);
    if k > 0 {
      MulAdd(c, q, j, k - 1);
      MulOnCurve(c, k - 1, q);
      MulStep(c, k - 1, q);
      MulStep(c, j + k - 1, q);
      Associate(c, Mul(c, j, q), Mul(c, k - 1, q), q);
    }
  }

  lemma {:induction false} MulMul(c: EdwardsCurve, q: EdPoint, j: nat, k: nat)
    requires IsEdwards(c) && Associative(c) && OnCurve(c, q)
    ensures j * k >= 0 && Mul(c, j, Mul(c, k, q)) == Mul(c, j * k, q)
    decreases j
  {
    hide *;
    EdwardsFacts(c);
    MulBound(0, j, 0, k);
    MulStep(c, 0, q);
    MulStep(c, 0, Mul(c, k, q));
    if j > 0 {
      MulMul(c, q, j - 1, k);
      MulAdd(c, q, (j - 1) * k, k);
      MulStep(c, j - 1, Mul(c, k, q));
      assert (j - 1) * k + k == j * k;
    }
  }

  lemma {:induction false} MulOfIdentity(c: EdwardsCurve, k: nat)
    requires IsEdwards(c)
    ensures Mul(c, k, IDENTITY) == IDENTITY
    decreases k
  {
    hide *;
    EdwardsFacts(c);
    MulStep(c, 0, IDENTITY);
    if k > 0 {
      MulOfIdentity(c, k - 1);
      MulStep(c, k - 1, IDENTITY);
      IdentityOnCurve(c);
      AddIdentity(c, IDENTITY);
    }
  }

  /** Multiples of a point whose n-th multiple is the identity depend on the factor modulo n only. */
  lemma MulModOrder(c: EdwardsCurve, q: EdPoint, n: nat, k: nat)
    requires IsEdwards(c) && Associative(c) && OnCurve(c, q) && n > 0 && Mul(c, n, q) == IDENTITY
    ensures k % n >= 0 && Mul(c, k, q) == Mul(c, k % n, q)
  {
    hide *;
    EdwardsFacts(c);
    var quotient, t := Quotient(k, n);
    assert t == quotient * n;
    MulMul(c, q, quotient, n);
    MulOfIdentity(c, quotient);
    MulOnCurve(c, k - t, q);
    AddIdentity(c, Mul(c, k - t, q));
    MulAdd(c, q, t, k - t);
  }

  /** One step of the loop over the bits of k, least significant first. */
  lemma LadderStep(c: EdwardsCurve, q: EdPoint, k: nat, i: nat, result: ExtendedPoint, addend: ExtendedPoint)
    requires IsEdwards(c) && Associative(c) && OnCurve(c, q)
    requires Pow(2, i) > 0 && k % Pow(2, i) >= 0
    requires Represents(c, result, Mul(c, k % Pow(2, i), q)) && Represents(c, addend, Mul(c, Pow(2, i), q))
    ensures Pow(2, i + 1) > 0 && k % Pow(2, i + 1) >= 0
    ensures Bit(k, i) == 0 ==> Represents(c, result, Mul(c, k % Pow(2, i + 1), q))
    ensures Bit(k, i) == 1 ==> Represents(c, PointAdd(c, result, addend), Mul(c, k % Pow(2, i + 1), q))
    ensures Represents(c, PointAdd(c, addend, addend), Mul(c, Pow(2, i + 1), q))
  {
    hide *;
    EdwardsFacts(c);
    BigIntPower.LowBitsStep(k, i);
    PowStep(2, i);
    var low, p := k % Pow(2, i), Pow(2, i);
    MulOnCurve(c, low, q);
    MulOnCurve(c, p, q);
    AddRepresents(c, result, addend, Mul(c, low, q), Mul(c, p, q));
    AddRepresents(c, addend, addend, Mul(c, p, q), Mul(c, p, q));
    MulAdd(c, q, low, p);
    MulAdd(c, q, p, p);
    assert 2 * p == p + p && 1 * p == p && 0 * p == 0;
  }
}
