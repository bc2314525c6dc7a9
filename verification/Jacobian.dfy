/** Jacobian coordinates, x = X / Z^2 and y = Y / Z^3: the doubling and the mixed addition that both
    `src/p256_fixed.cpp` and `src/p256.cpp` perform, and the affine points they stand for. */
module Jacobian {
  import opened NumberTheory
  import opened PrimeField
  import opened Weierstrass

  datatype JacobianPoint = JacobianPoint(x: int, y: int, z: int, infinity: bool)

  const JACOBIAN_INFINITY := JacobianPoint(0, 0, 0, true)

  function AffineToJacobian(q: AffinePoint): JacobianPoint {
    if q.infinity then JACOBIAN_INFINITY else JacobianPoint(q.x, q.y, 1, false)
  }

  function JacobianDouble(c: Curve, j: JacobianPoint): JacobianPoint
    requires c.p > 1
  {
    if j.infinity || j.y == 0 then JACOBIAN_INFINITY else
      var p := c.p;
      var xx := FMul(p, j.x, j.x);
      var yy := FMul(p, j.y, j.y);
      var yyyy := FMul(p, yy, yy);
      var zz := FMul(p, j.z, j.z);
      var xPlusYY := FAdd(p, j.x, yy);
      var sHalf := FSub(p, FSub(p, FMul(p, xPlusYY, xPlusYY), xx), yyyy);
      var s := FMul(p, 2, sHalf);
      var aZZSquared := FMul(p, c.a, FMul(p, zz, zz));
      var m := FAdd(p, FMul(p, 3, xx), aZZSquared);
      var x3 := FSub(p, FMul(p, m, m), FMul(p, 2, s));
      var y3 := FSub(p, FMul(p, m, FSub(p, s, x3)), FMul(p, 8, yyyy));
      var yPlusZ := FAdd(p, j.y, j.z);
      var z3 := FSub(p, FSub(p, FMul(p, yPlusZ, yPlusZ), yy), zz);
      if z3 == 0 then JACOBIAN_INFINITY else JacobianPoint(x3, y3, z3, false)
  }

  function JacobianAddAffine(c: Curve, j: JacobianPoint, q: AffinePoint): JacobianPoint
    requires c.p > 1
  {
    if q.infinity then j
    else if j.infinity then AffineToJacobian(q)
    else
      var p := c.p;
      var z1z1 := FMul(p, j.z, j.z);
      var u2 := FMul(p, q.x, z1z1);
      var s2 := FMul(p, q.y, FMul(p, j.z, z1z1));
      var h := FSub(p, u2, j.x);
      var s2MinusY1 := FSub(p, s2, j.y);
      if h == 0 then
        if s2MinusY1 == 0 then JacobianDouble(c, j) else JACOBIAN_INFINITY
      else
        var hh := FMul(p, h, h);
        var i := FMul(p, 4, hh);
        var jj := FMul(p, h, i);
        var r := FMul(p, 2, s2MinusY1);
        var v := FMul(p, j.x, i);
        var x3 := FSub(p, FSub(p, FMul(p, r, r), jj), FMul(p, 2, v));
        var y3 := FSub(p, FMul(p, r, FSub(p, v, x3)), FMul(p, 2, FMul(p, j.y, jj)));
        var z1PlusH := FAdd(p, j.z, h);
        var z3 := FSub(p, FSub(p, FMul(p, z1PlusH, z1PlusH), z1z1), hh);
        if z3 == 0 then JACOBIAN_INFINITY else JacobianPoint(x3, y3, z3, false)
  }

  function JacobianToAffine(c: Curve, j: JacobianPoint): AffinePoint
    requires c.p > 1
  {
    if j.infinity then INFINITY else
      var p := c.p;
      var zInverse := FInv(p, j.z);
      var zInverseSquared := FMul(p, zInverse, zInverse);
      var zInverseCubed := FMul(p, zInverseSquared, zInverse);
      AffinePoint(FMul(p, j.x, zInverseSquared), FMul(p, j.y, zInverseCubed), false)
  }

  // ----- what a Jacobian point stands for -----

  ghost predicate Represents(c: Curve, j: JacobianPoint, q: AffinePoint)
    requires c.p > 1
  {
    if j.infinity || q.infinity then
      j == JACOBIAN_INFINITY && q == INFINITY
    else
      && InField(c.p, j.x) && InField(c.p, j.y) && InField(c.p, j.z) && j.z != 0
      && Cong(j.x, q.x * (j.z * j.z), c.p)
      && Cong(j.y, q.y * (j.z * j.z * j.z), c.p)
  }

  // ----- doubling -----

  /** The intermediate values of the doubling, as polynomials in the input coordinates. */
  lemma DoubleValues(c: Curve, j: JacobianPoint) returns (s: int, m: int, x3: int, y3: int, z3: int)
    requires IsCurve(c) && !j.infinity && j.y != 0
    ensures var X, Y, Z := j.x, j.y, j.z;
            && Cong(s, 4 * (X * (Y * Y)), c.p)
            && Cong(m, 3 * (X * X) + c.a * (Z * Z * (Z * Z)), c.p)
            && Cong(x3, m * m - 2 * s, c.p)
            && Cong(y3, m * (s - x3) - 8 * (Y * Y * (Y * Y)), c.p)
            && Cong(z3, 2 * (Y * Z), c.p)
    ensures InField(c.p, x3) && InField(c.p, y3) && InField(c.p, z3)
    ensures JacobianDouble(c, j) == if z3 == 0 then JACOBIAN_INFINITY else JacobianPoint(x3, y3, z3, false)
  {
    var p, X, Y, Z := c.p, j.x, j.y, j.z;
    var xx, yy := FMul(p, X, X), FMul(p, Y, Y);
    var yyyy, zz := FMul(p, yy, yy), FMul(p, Z, Z);
    var xPlusYY := FAdd(p, X, yy);
    var square := FMul(p, xPlusYY, xPlusYY);
    var sHalf := FSub(p, FSub(p, square, xx), yyyy);
    s := FMul(p, 2, sHalf);
    var zz2 := FMul(p, zz, zz);
    var aZZSquared := FMul(p, c.a, zz2);
    m := FAdd(p, FMul(p, 3, xx), aZZSquared);
    x3 := FSub(p, FMul(p, m, m), FMul(p, 2, s));
    y3 := FSub(p, FMul(p, m, FSub(p, s, x3)), FMul(p, 8, yyyy));
    var yPlusZ := FAdd(p, Y, Z);
    z3 := FSub(p, FSub(p, FMul(p, yPlusZ, yPlusZ), yy), zz);
    hide FAdd;
    hide FSub;
    hide FMul;
    hide Cong;
    CongSelf(X, p);
    CongSelf(Y, p);
    CongSelf(Z, p);
    FMulCong(p, X, X, X, X);
    FMulCong(p, Y, Y, Y, Y);
    FMulCong(p, Z, Z, Z, Z);
    FMulCong(p, yy, Y * Y, yy, Y * Y);
    FMulCong(p, zz, Z * Z, zz, Z * Z);
    FAddCong(p, X, X, yy, Y * Y);
    FMulCong(p, xPlusYY, X + Y * Y, xPlusYY, X + Y * Y);
    SquareOfSum(X, Y * Y);
    FSubCong(p, square, (X + Y * Y) * (X + Y * Y), xx, X * X);
    FSubCong(p, FSub(p, square, xx), (X + Y * Y) * (X + Y * Y) - X * X, yyyy, Y * Y * (Y * Y));
    ScaleCong(p, 2, sHalf, 2 * (X * (Y * Y)));
    CongSelf(c.a, p);
    FMulCong(p, c.a, c.a, zz2, Z * Z * (Z * Z));
    ScaleCong(p, 3, xx, X * X);
    FAddCong(p, FMul(p, 3, xx), 3 * (X * X), aZZSquared, c.a * (Z * Z * (Z * Z)));
    CongSelf(m, p);
    CongSelf(s, p);
    CongSelf(x3, p);
    FMulCong(p, m, m, m, m);
    ScaleCong(p, 2, s, s);
    FSubCong(p, FMul(p, m, m), m * m, FMul(p, 2, s), 2 * s);
    FSubCong(p, s, s, x3, x3);
    FMulCong(p, m, m, FSub(p, s, x3), s - x3);
    ScaleCong(p, 8, yyyy, Y * Y * (Y * Y));
    FSubCong(p, FMul(p, m, FSub(p, s, x3)), m * (s - x3), FMul(p, 8, yyyy), 8 * (Y * Y * (Y * Y)));
    FAddCong(p, Y, Y, Z, Z);
    FMulCong(p, yPlusZ, Y + Z, yPlusZ, Y + Z);
    SquareOfSum(Y, Z);
    FSubCong(p, FMul(p, yPlusZ, yPlusZ), (Y + Z) * (Y + Z), yy, Y * Y);
    FSubCong(p, FSub(p, FMul(p, yPlusZ, yPlusZ), yy), (Y + Z) * (Y + Z) - Y * Y, zz, Z * Z);
  }

  lemma ScaleCong(p: int, k: int, x: int, x': int)
    requires p > 0 && Cong(x, x', p)
    ensures Cong(FMul(p, k, x), k * x', p)
  {
    FMulCong(p, k, k, x, x');
  }

  /** With Z3 = 2YZ the tangent formula for x clears to the Jacobian one; w is Z^4. */
  lemma TangentX(x: int, y: int, slope: int, m: int, w: int, xd: int, p: int)
    requires p > 0 && Cong(slope * (2 * y), m, p) && Cong(xd, slope * slope - x - x, p)
    ensures Cong((m * w) * (m * w) - 2 * (4 * (x * w * (y * y * w))), xd * (2 * y * w * (2 * y * w)), p)
  {
    var t, u := slope * (2 * y), 2 * y * w;
    CongMul(t, m, w, w, p);
    CongMul(t * w, m * w, t * w, m * w, p);
    CongMul(xd, slope * slope - x - x, u * u, u * u, p);
    TangentXIdentity(x, y, slope, w);
    CongSub(t * w * (t * w), m * w * (m * w), 8 * (x * w * (y * y * w)), 8 * (x * w * (y * y * w)), p);
  }

  lemma TangentXIdentity(x: int, y: int, slope: int, w: int)
    ensures (slope * slope - x - x) * (2 * y * w * (2 * y * w))
         == slope * (2 * y) * w * (slope * (2 * y) * w) - 8 * (x * w * (y * y * w))
  {
    var u := 2 * y * w;
    assert slope * (2 * y) * w == slope * u;
    assert slope * u * (slope * u) == slope * slope * (u * u);
    assert (slope * slope - x - x) * (u * u) == slope * slope * (u * u) - 2 * (x * (u * u));
    assert x * (u * u) == 4 * (x * w * (y * y * w));
  }

  /** The same for y. */
  lemma TangentY(x: int, y: int, slope: int, m: int, w: int, xd: int, yd: int, s: int, x3: int, p: int)
    requires p > 0 && Cong(slope * (2 * y), m, p) && Cong(yd, slope * (x - xd) - y, p)
    requires Cong(s, 4 * (x * w * (y * y * w)), p) && Cong(x3, xd * (2 * y * w * (2 * y * w)), p)
    ensures Cong((m * w) * (s - x3) - 8 * (y * y * (y * y) * (w * w * w)), yd * (2 * y * w * (2 * y * w) * (2 * y * w)), p)
  {
    var u, t := 2 * y * w, slope * (2 * y);
    var e := x - xd;
    CongSub(s, 4 * (x * w * (y * y * w)), x3, xd * (u * u), p);
    assert 4 * (x * w * (y * y * w)) == x * (u * u);
    assert x * (u * u) - xd * (u * u) == e * (u * u);
    CongMul(t, m, w, w, p);
    CongMul(t * w, m * w, e * (u * u), s - x3, p);
    var k := 8 * (y * y * (y * y) * (w * w * w));
    CongSub(t * w * (e * (u * u)), m * w * (s - x3), k, k, p);
    CongMul(yd, slope * e - y, u * u * u, u * u * u, p);
    TangentYIdentity(y, slope, w, e);
  }

  lemma TangentYIdentity(y: int, slope: int, w: int, e: int)
    ensures (slope * e - y) * (2 * y * w * (2 * y * w) * (2 * y * w))
         == slope * (2 * y) * w * (e * (2 * y * w * (2 * y * w))) - 8 * (y * y * (y * y) * (w * w * w))
  {
    var u := 2 * y * w;
    assert slope * (2 * y) * w == slope * u;
    assert slope * u * (e * (u * u)) == slope * e * (u * u * u);
    assert y * (u * u * u) == 8 * (y * y * (y * y) * (w * w * w)) by {
      assert u * u == 4 * (y * y) * (w * w);
      assert 4 * (y * y) * (w * w) * u == 8 * (y * y * y) * (w * w * w);
    }
  }

  /** Powers of Z in the coordinates: X^2 = x^2 w, X Y^2 = x y^2 w^2, Y^4 = y^4 w^3, Y Z = y w. */
  lemma ScaledPowers(X: int, Y: int, Z: int, x: int, y: int, p: int)
    requires p > 0 && Cong(X, x * (Z * Z), p) && Cong(Y, y * (Z * Z * Z), p)
    ensures var w := Z * Z * (Z * Z);
            && Cong(X * X, x * x * w, p)
            && Cong(X * (Y * Y), x * w * (y * y * w), p)
            && Cong(Y * Y * (Y * Y), y * y * (y * y) * (w * w * w), p)
            && Cong(Y * Z, y * w, p)
  {
    var z2, z3 := Z * Z, Z * Z * Z;
    var w := z2 * z2;
    CongMul(X, x * z2, X, x * z2, p);
    MulSwap(x, z2, x, z2);
    CongMul(Y, y * z3, Y, y * z3, p);
    MulSwap(y, z3, y, z3);
    assert z3 * z3 == w * z2 by { assert z3 == z2 * Z; MulSwap(z2, Z, z2, Z); }
    CongMul(X, x * z2, Y * Y, y * y * (w * z2), p);
    assert x * z2 * (y * y * (w * z2)) == x * w * (y * y * w) by {
      MulSwap(x, z2, y * y * w, z2);
      assert y * y * (w * z2) == y * y * w * z2;
    }
    CongMul(Y * Y, y * y * (w * z2), Y * Y, y * y * (w * z2), p);
    MulSwap(y * y, w * z2, y * y, w * z2);
    MulSwap(w, z2, w, z2);
    CongMul(Y, y * z3, Z, Z, p);
    assert y * z3 * Z == y * w by { assert z3 * Z == w; }
  }

  /** The intermediate values of the doubling in terms of the affine point; w is Z^4. */
  lemma DoubleScaled(c: Curve, X: int, Y: int, Z: int, x: int, y: int, s: int, m: int, z3: int)
    requires c.p > 1 && Cong(X, x * (Z * Z), c.p) && Cong(Y, y * (Z * Z * Z), c.p)
    requires Cong(s, 4 * (X * (Y * Y)), c.p) && Cong(m, 3 * (X * X) + c.a * (Z * Z * (Z * Z)), c.p)
    requires Cong(z3, 2 * (Y * Z), c.p)
    ensures var w := Z * Z * (Z * Z);
            && Cong(m, (3 * (x * x) + c.a) * w, c.p)
            && Cong(s, 4 * (x * w * (y * y * w)), c.p)
            && Cong(z3, 2 * y * w, c.p)
            && Cong(8 * (Y * Y * (Y * Y)), 8 * (y * y * (y * y) * (w * w * w)), c.p)
  {
    var p, w := c.p, Z * Z * (Z * Z);
    ScaledPowers(X, Y, Z, x, y, p);
    CongMul(3, 3, X * X, x * x * w, p);
    CongAdd(3 * (X * X), 3 * (x * x * w), c.a * w, c.a * w, p);
    assert 3 * (x * x * w) + c.a * w == (3 * (x * x) + c.a) * w;
    CongMul(4, 4, X * (Y * Y), x * w * (y * y * w), p);
    CongMul(2, 2, Y * Z, y * w, p);
    assert 2 * (y * w) == 2 * y * w;
    CongMul(8, 8, Y * Y * (Y * Y), y * y * (y * y) * (w * w * w), p);
  }

  lemma DoubleX(x: int, y: int, w: int, slope: int, mu: int, xd: int, s: int, m: int, x3: int, p: int)
    requires p > 0 && Cong(slope * (2 * y), mu, p) && Cong(xd, slope * slope - x - x, p)
    requires Cong(m, mu * w, p) && Cong(s, 4 * (x * w * (y * y * w)), p) && Cong(x3, m * m - 2 * s, p)
    ensures Cong(x3, xd * (2 * y * w * (2 * y * w)), p)
  {
    CongMul(m, mu * w, m, mu * w, p);
    CongMul(2, 2, s, 4 * (x * w * (y * y * w)), p);
    CongSub(m * m, mu * w * (mu * w), 2 * s, 2 * (4 * (x * w * (y * y * w))), p);
    TangentX(x, y, slope, mu, w, xd, p);
  }

  lemma DoubleY(x: int, y: int, w: int, slope: int, mu: int, xd: int, yd: int, s: int, m: int, x3: int, y3: int, y4: int, p: int)
    requires p > 0 && Cong(slope * (2 * y), mu, p) && Cong(yd, slope * (x - xd) - y, p)
    requires Cong(m, mu * w, p) && Cong(s, 4 * (x * w * (y * y * w)), p)
    requires Cong(x3, xd * (2 * y * w * (2 * y * w)), p) && Cong(y3, m * (s - x3) - y4, p)
    requires Cong(y4, 8 * (y * y * (y * y) * (w * w * w)), p)
    ensures Cong(y3, yd * (2 * y * w * (2 * y * w) * (2 * y * w)), p)
  {
    CongMul(m, mu * w, s - x3, s - x3, p);
    CongSub(m * (s - x3), mu * w * (s - x3), y4, 8 * (y * y * (y * y) * (w * w * w)), p);
    TangentY(x, y, slope, mu, w, xd, yd, s, x3, p);
  }

  /** For finite points with y != 0: all three coordinates of the double stand for the affine double. */
  lemma DoubleCoordinates(c: Curve, X: int, Y: int, Z: int, q: AffinePoint, slope: int, d: AffinePoint,
                          s: int, m: int, x3: int, y3: int, z3: int)
    requires c.p > 1 && Cong(X, q.x * (Z * Z), c.p) && Cong(Y, q.y * (Z * Z * Z), c.p)
    requires Cong(slope * (2 * q.y), 3 * (q.x * q.x) + c.a, c.p) && ThirdPoint(c, q, q.x, slope, d)
    requires Cong(s, 4 * (X * (Y * Y)), c.p) && Cong(m, 3 * (X * X) + c.a * (Z * Z * (Z * Z)), c.p)
    requires Cong(x3, m * m - 2 * s, c.p) && Cong(y3, m * (s - x3) - 8 * (Y * Y * (Y * Y)), c.p)
    requires Cong(z3, 2 * (Y * Z), c.p)
    ensures Cong(z3, 2 * q.y * (Z * Z * (Z * Z)), c.p)
    ensures Cong(x3, d.x * (z3 * z3), c.p) && Cong(y3, d.y * (z3 * z3 * z3), c.p)
  {
    hide *;
    var p, x, y, w := c.p, q.x, q.y, Z * Z * (Z * Z);
    var mu, u := 3 * (x * x) + c.a, 2 * y * w;
    ThirdPointCoordinates(c, q, x, slope, d);
    DoubleScaled(c, X, Y, Z, x, y, s, m, z3);
    DoubleX(x, y, w, slope, mu, d.x, s, m, x3, p);
    DoubleY(x, y, w, slope, mu, d.x, d.y, s, m, x3, y3, 8 * (Y * Y * (Y * Y)), p);
    ScaleByCube(d.x, d.y, z3, u, p);
    CongChain(x3, d.x * (u * u), d.x * (z3 * z3), p);
    CongChain(y3, d.y * (u * u * u), d.y * (z3 * z3 * z3), p);
  }

  lemma ThirdPointCoordinates(c: Curve, q: AffinePoint, x2: int, slope: int, s: AffinePoint)
    requires c.p > 0 && ThirdPoint(c, q, x2, slope, s)
    ensures Cong(s.x, slope * slope - q.x - x2, c.p) && Cong(s.y, slope * (q.x - s.x) - q.y, c.p)
  {
  }

  lemma ScaleByCube(x: int, y: int, z: int, u: int, p: int)
    requires p > 0 && Cong(z, u, p)
    ensures Cong(x * (z * z), x * (u * u), p) && Cong(y * (z * z * z), y * (u * u * u), p)
  {
    CongMul(z, u, z, u, p);
    CongMul(z * z, u * u, z, u, p);
    CongMul(x, x, z * z, u * u, p);
    CongMul(y, y, z * z * z, u * u * u, p);
  }

  /** Y is zero exactly when the affine y is, because Z is not. */
  lemma ScaledZero(c: Curve, Y: int, y: int, z: int, s: int)
    requires IsCurve(c) && InField(c.p, Y) && InField(c.p, y) && s % c.p != 0 && Cong(Y, y * s, c.p)
    ensures Y == 0 <==> y == 0
  {
    FZero(c.p, Y, y * s);
    NonzeroProduct(c.p, y, s);
    NonzeroInField(c.p, y);
  }

  lemma PowersNonzero(c: Curve, z: int)
    requires IsCurve(c) && InField(c.p, z) && z != 0
    ensures (z * z) % c.p != 0 && (z * z * z) % c.p != 0 && (z * z * (z * z)) % c.p != 0
  {
    NonzeroInField(c.p, z);
    NonzeroProduct(c.p, z, z);
    NonzeroProduct(c.p, z * z, z);
    NonzeroProduct(c.p, z * z, z * z);
  }

  /** Jacobian doubling stands for the affine double of every point of the curve. */
  lemma DoubleRepresents(c: Curve, j: JacobianPoint, q: AffinePoint)
    requires IsCurve(c) && OnCurve(c, q) && Represents(c, j, q)
    ensures Represents(c, JacobianDouble(c, j), Double(c, q))
  {
    if !j.infinity && !q.infinity {
      PowersNonzero(c, j.z);
      ScaledZero(c, j.y, q.y, j.z, j.z * j.z * j.z);
      if j.y != 0 {
        var slope := DoubleIsTangent(c, q);
        var s, m, x3, y3, z3 := DoubleValues(c, j);
        DoubleOnCurve(c, q);
        var d := Double(c, q);
        FiniteDouble(c, q);
        hide Double;
        hide JacobianDouble;
        DoubleCoordinates(c, j.x, j.y, j.z, q, slope, d, s, m, x3, y3, z3);
        TwiceNonzero(c, q.y);
        NonzeroProduct(c.p, 2 * q.y, j.z * j.z * (j.z * j.z));
        FZero(c.p, z3, 2 * q.y * (j.z * j.z * (j.z * j.z)));
      }
    }
  }

  lemma FiniteDouble(c: Curve, q: AffinePoint)
    requires c.p > 1 && !q.infinity && q.y != 0
    ensures !Double(c, q).infinity
  {
  }

  // ----- mixed addition -----

  /** The values the mixed addition branches on. */
  lemma AddBranch(c: Curve, j: JacobianPoint, q: AffinePoint) returns (h: int, sm: int)
    requires c.p > 1 && !j.infinity && !q.infinity
    ensures InField(c.p, h) && InField(c.p, sm)
    ensures Cong(h, q.x * (j.z * j.z) - j.x, c.p) && Cong(sm, q.y * (j.z * j.z * j.z) - j.y, c.p)
    ensures h == 0 ==> JacobianAddAffine(c, j, q) == if sm == 0 then JacobianDouble(c, j) else JACOBIAN_INFINITY
    ensures h != 0 ==> JacobianAddAffine(c, j, q) == AddFinite(c, j, h, sm)
  {
    var p, Z := c.p, j.z;
    var z1z1 := FMul(p, Z, Z);
    var z3 := FMul(p, Z, z1z1);
    var u2, s2 := FMul(p, q.x, z1z1), FMul(p, q.y, z3);
    h, sm := FSub(p, u2, j.x), FSub(p, s2, j.y);
    FMulCong(p, Z, Z, Z, Z);
    FMulCong(p, q.x, q.x, z1z1, Z * Z);
    FMulCong(p, Z, Z, z1z1, Z * Z);
    FMulCong(p, q.y, q.y, z3, Z * (Z * Z));
    FSubCong(p, u2, q.x * (Z * Z), j.x, j.x);
    FSubCong(p, s2, q.y * (Z * (Z * Z)), j.y, j.y);
    assert Z * (Z * Z) == Z * Z * Z;
  }

  /** The branch of the mixed addition for different x-coordinates. */
  function AddFinite(c: Curve, j: JacobianPoint, h: int, sm: int): JacobianPoint
    requires c.p > 1
  {
    var p := c.p;
    var hh := FMul(p, h, h);
    var i := FMul(p, 4, hh);
    var jj := FMul(p, h, i);
    var r := FMul(p, 2, sm);
    var v := FMul(p, j.x, i);
    var x3 := FSub(p, FSub(p, FMul(p, r, r), jj), FMul(p, 2, v));
    var y3 := FSub(p, FMul(p, r, FSub(p, v, x3)), FMul(p, 2, FMul(p, j.y, jj)));
    var z1PlusH := FAdd(p, j.z, h);
    var z3 := FSub(p, FSub(p, FMul(p, z1PlusH, z1PlusH), FMul(p, j.z, j.z)), hh);
    if z3 == 0 then JACOBIAN_INFINITY else JacobianPoint(x3, y3, z3, false)
  }

  /** Its coordinates as polynomials. */
  lemma AddValues(c: Curve, j: JacobianPoint, h: int, sm: int) returns (x3: int, y3: int, z3: int)
    requires c.p > 1
    ensures var X, Y, Z := j.x, j.y, j.z;
            && Cong(x3, 4 * (sm * sm) - 4 * (h * h * h) - 8 * (X * (h * h)), c.p)
            && Cong(y3, 2 * sm * (4 * (X * (h * h)) - x3) - 8 * (Y * (h * h * h)), c.p)
            && Cong(z3, 2 * (Z * h), c.p)
    ensures InField(c.p, x3) && InField(c.p, y3) && InField(c.p, z3)
    ensures AddFinite(c, j, h, sm) == if z3 == 0 then JACOBIAN_INFINITY else JacobianPoint(x3, y3, z3, false)
  {
    var p, X, Y, Z := c.p, j.x, j.y, j.z;
    var hh := FMul(p, h, h);
    var i := FMul(p, 4, hh);
    var jj := FMul(p, h, i);
    var r := FMul(p, 2, sm);
    var v := FMul(p, X, i);
    var rr := FMul(p, r, r);
    x3 := FSub(p, FSub(p, rr, jj), FMul(p, 2, v));
    var yjj := FMul(p, Y, jj);
    y3 := FSub(p, FMul(p, r, FSub(p, v, x3)), FMul(p, 2, yjj));
    var sum := FAdd(p, Z, h);
    var zz, square := FMul(p, Z, Z), FMul(p, sum, sum);
    z3 := FSub(p, FSub(p, square, zz), hh);
    hide FAdd;
    hide FSub;
    hide FMul;
    hide Cong;
    CongSelf(X, p);
    CongSelf(Y, p);
    CongSelf(Z, p);
    CongSelf(h, p);
    CongSelf(sm, p);
    FMulCong(p, h, h, h, h);
    ScaleCong(p, 4, hh, h * h);
    FMulCong(p, h, h, i, 4 * (h * h));
    ScaleCong(p, 2, sm, sm);
    FMulCong(p, X, X, i, 4 * (h * h));
    FMulCong(p, r, 2 * sm, r, 2 * sm);
    ScaleCong(p, 2, v, X * (4 * (h * h)));
    FSubCong(p, rr, 2 * sm * (2 * sm), jj, h * (4 * (h * h)));
    FSubCong(p, FSub(p, rr, jj), 2 * sm * (2 * sm) - h * (4 * (h * h)), FMul(p, 2, v), 2 * (X * (4 * (h * h))));
    AddMonomials(X, Y, h, sm);
    CongSelf(x3, p);
    FSubCong(p, v, 4 * (X * (h * h)), x3, x3);
    FMulCong(p, r, 2 * sm, FSub(p, v, x3), 4 * (X * (h * h)) - x3);
    FMulCong(p, Y, Y, jj, 4 * (h * h * h));
    ScaleCong(p, 2, yjj, Y * (4 * (h * h * h)));
    FSubCong(p, FMul(p, r, FSub(p, v, x3)), 2 * sm * (4 * (X * (h * h)) - x3), FMul(p, 2, yjj), 8 * (Y * (h * h * h)));
    FAddCong(p, Z, Z, h, h);
    FMulCong(p, sum, Z + h, sum, Z + h);
    SquareOfSum(Z, h);
    FMulCong(p, Z, Z, Z, Z);
    FSubCong(p, square, (Z + h) * (Z + h), zz, Z * Z);
    FSubCong(p, FSub(p, square, zz), (Z + h) * (Z + h) - Z * Z, hh, h * h);
  }

  lemma AddMonomials(X: int, Y: int, h: int, sm: int)
    ensures 2 * sm * (2 * sm) == 4 * (sm * sm) && h * (4 * (h * h)) == 4 * (h * h * h)
    ensures X * (4 * (h * h)) == 4 * (X * (h * h)) && 2 * (Y * (4 * (h * h * h))) == 8 * (Y * (h * h * h))
  {
  }

  /** The powers in affine terms: d and e are the coordinate differences, g is Z^3. */
  lemma AddScaled(X: int, Y: int, Z: int, x: int, y: int, d: int, e: int, h: int, sm: int, p: int)
    requires p > 0 && Cong(X, x * (Z * Z), p) && Cong(Y, y * (Z * Z * Z), p)
    requires Cong(h, d * (Z * Z), p) && Cong(sm, e * (Z * Z * Z), p)
    ensures var g := Z * Z * Z;
            && Cong(sm * sm, e * e * (g * g), p)
            && Cong(h * h * h, d * d * d * (g * g), p)
            && Cong(X * (h * h), x * (d * d) * (g * g), p)
            && Cong(Y * (h * h * h), y * (d * d * d) * (g * g * g), p)
            && Cong(Z * h, d * g, p)
  {
    var z2, g := Z * Z, Z * Z * Z;
    assert z2 * z2 * z2 == g * g;
    CongMul(sm, e * g, sm, e * g, p);
    MulSwap(e, g, e, g);
    CongMul(h, d * z2, h, d * z2, p);
    MulSwap(d, z2, d, z2);
    CongMul(h * h, d * d * (z2 * z2), h, d * z2, p);
    MulSwap(d * d, z2 * z2, d, z2);
    CongMul(X, x * z2, h * h, d * d * (z2 * z2), p);
    MulSwap(x, z2, d * d, z2 * z2);
    assert z2 * (z2 * z2) == g * g;
    CongMul(Y, y * g, h * h * h, d * d * d * (g * g), p);
    MulSwap(y, g, d * d * d, g * g);
    assert g * (g * g) == g * g * g;
    CongMul(Z, Z, h, d * z2, p);
    assert Z * (d * z2) == d * g;
  }

  lemma ChordX(x: int, d: int, e: int, slope: int, g: int, xd: int, p: int)
    requires p > 0 && Cong(slope * d, e, p) && Cong(xd, slope * slope - x - (x + d), p)
    ensures Cong(4 * (e * e * (g * g)) - 4 * (d * d * d * (g * g)) - 8 * (x * (d * d) * (g * g)),
                 xd * (2 * d * g * (2 * d * g)), p)
  {
    var u, t := 2 * d * g, slope * d;
    var k := 4 * (d * d * d * (g * g)) + 8 * (x * (d * d) * (g * g));
    CongMul(t, e, t, e, p);
    CongMul(t * t, e * e, g * g, g * g, p);
    CongMul(4, 4, t * t * (g * g), e * e * (g * g), p);
    CongSub(4 * (t * t * (g * g)), 4 * (e * e * (g * g)), k, k, p);
    CongMul(xd, slope * slope - x - (x + d), u * u, u * u, p);
    ChordXIdentity(x, d, slope, g);
  }

  lemma ChordXIdentity(x: int, d: int, slope: int, g: int)
    ensures (slope * slope - x - (x + d)) * (2 * d * g * (2 * d * g))
         == 4 * (slope * d * (slope * d) * (g * g)) - 4 * (d * d * d * (g * g)) - 8 * (x * (d * d) * (g * g))
  {
    var w := d * d * (g * g);
    ChordSquares(d, slope, g);
    assert d * d * d * (g * g) == d * w;
    assert x * (d * d) * (g * g) == x * w;
    ChordTerms(slope * slope, x, d, w);
  }

  lemma ChordSquares(d: int, slope: int, g: int)
    ensures 2 * d * g * (2 * d * g) == 4 * (d * d * (g * g))
    ensures slope * d * (slope * d) * (g * g) == slope * slope * (d * d * (g * g))
  {
    MulSwap(d, g, d, g);
    MulSwap(slope, d, slope, d);
    assert 2 * d * g == 2 * (d * g);
    assert 2 * (d * g) * (2 * (d * g)) == 4 * (d * g * (d * g));
    assert slope * slope * (d * d) * (g * g) == slope * slope * (d * d * (g * g));
  }

  lemma ChordTerms(s: int, x: int, d: int, w: int)
    ensures (s - x - (x + d)) * (4 * w) == 4 * (s * w) - 8 * (x * w) - 4 * (d * w)
  {
    assert (s - 2 * x - d) * w == s * w - 2 * (x * w) - d * w;
  }

  lemma ChordY(x: int, y: int, d: int, e: int, slope: int, g: int, xd: int, yd: int, v: int, x3: int, p: int)
    requires p > 0 && Cong(slope * d, e, p) && Cong(yd, slope * (x - xd) - y, p)
    requires Cong(v, 4 * (x * (d * d) * (g * g)), p) && Cong(x3, xd * (2 * d * g * (2 * d * g)), p)
    ensures Cong(2 * (e * g) * (v - x3) - 8 * (y * (d * d * d) * (g * g * g)),
                 yd * (2 * d * g * (2 * d * g) * (2 * d * g)), p)
  {
    var u, f := 2 * d * g, x - xd;
    ChordDifference(x, d, g, xd);
    CongSub(v, x * (u * u), x3, xd * (u * u), p);
    CongMul(slope * d, e, g, g, p);
    CongScale(2, slope * d * g, e * g, p);
    CongMul(2 * (slope * d * g), 2 * (e * g), f * (u * u), v - x3, p);
    var k := 8 * (y * (d * d * d) * (g * g * g));
    CongSub(2 * (slope * d * g) * (f * (u * u)), 2 * (e * g) * (v - x3), k, k, p);
    CongMul(yd, slope * f - y, u * u * u, u * u * u, p);
    ChordYIdentity(y, d, slope, g, f);
  }

  lemma ChordDifference(x: int, d: int, g: int, xd: int)
    ensures var u := 2 * d * g;
            4 * (x * (d * d) * (g * g)) == x * (u * u) && x * (u * u) - xd * (u * u) == (x - xd) * (u * u)
  {
  }

  lemma ChordYIdentity(y: int, d: int, slope: int, g: int, f: int)
    ensures (slope * f - y) * (2 * d * g * (2 * d * g) * (2 * d * g))
         == 2 * (slope * d * g) * (f * (2 * d * g * (2 * d * g))) - 8 * (y * (d * d * d) * (g * g * g))
  {
    var u := 2 * d * g;
    assert 2 * (slope * d * g) == slope * u;
    assert slope * u * (f * (u * u)) == slope * f * (u * u * u);
    assert u * u * u == 8 * ((d * d * d) * (g * g * g)) by {
      assert u * u == 4 * (d * d) * (g * g);
      assert 4 * (d * d) * (g * g) * u == 8 * ((d * d * d) * (g * g * g));
    }
  }

  /** The chord formulas, cleared of denominators, are the Jacobian ones. */
  lemma AddCoordinates(X: int, Y: int, Z: int, q: AffinePoint, r: AffinePoint, slope: int, t: AffinePoint,
                       h: int, sm: int, x3: int, y3: int, z3: int, c: Curve)
    requires c.p > 1 && Cong(X, q.x * (Z * Z), c.p) && Cong(Y, q.y * (Z * Z * Z), c.p)
    requires Cong(h, (r.x - q.x) * (Z * Z), c.p) && Cong(sm, (r.y - q.y) * (Z * Z * Z), c.p)
    requires Cong(slope * (r.x - q.x), r.y - q.y, c.p) && ThirdPoint(c, q, r.x, slope, t)
    requires Cong(x3, 4 * (sm * sm) - 4 * (h * h * h) - 8 * (X * (h * h)), c.p)
    requires Cong(y3, 2 * sm * (4 * (X * (h * h)) - x3) - 8 * (Y * (h * h * h)), c.p)
    requires Cong(z3, 2 * (Z * h), c.p)
    ensures Cong(z3, 2 * (r.x - q.x) * (Z * Z * Z), c.p)
    ensures Cong(x3, t.x * (z3 * z3), c.p) && Cong(y3, t.y * (z3 * z3 * z3), c.p)
  {
    hide *;
    var p, d, e, g := c.p, r.x - q.x, r.y - q.y, Z * Z * Z;
    var u := 2 * d * g;
    ThirdPointCoordinates(c, q, r.x, slope, t);
    AddScaled(X, Y, Z, q.x, q.y, d, e, h, sm, p);
    AddZ(Z, h, d, g, z3, p);
    AddX(q.x, d, e, g, X * (h * h), h * h * h, sm * sm, x3, p);
    assert q.x + d == r.x;
    ChordX(q.x, d, e, slope, g, t.x, p);
    var a := 4 * (e * e * (g * g)) - 4 * (d * d * d * (g * g)) - 8 * (q.x * (d * d) * (g * g));
    CongTrans(x3, a, t.x * (u * u), p);
    AddY(q.x, q.y, d, e, g, X * (h * h), Y * (h * h * h), sm, x3, y3, p);
    CongScale(4, X * (h * h), q.x * (d * d) * (g * g), p);
    ChordY(q.x, q.y, d, e, slope, g, t.x, t.y, 4 * (X * (h * h)), x3, p);
    CongTrans(y3, 2 * (e * g) * (4 * (X * (h * h)) - x3) - 8 * (q.y * (d * d * d) * (g * g * g)),
              t.y * (u * u * u), p);
    ScaleByCube(t.x, t.y, z3, u, p);
    CongChain(x3, t.x * (u * u), t.x * (z3 * z3), p);
    CongChain(y3, t.y * (u * u * u), t.y * (z3 * z3 * z3), p);
  }

  lemma CongScale(k: int, a: int, b: int, p: int)
    requires p > 0 && Cong(a, b, p)
    ensures Cong(k * a, k * b, p)
  {
    CongMul(k, k, a, b, p);
  }

  lemma AddZ(Z: int, h: int, d: int, g: int, z3: int, p: int)
    requires p > 0 && Cong(z3, 2 * (Z * h), p) && Cong(Z * h, d * g, p)
    ensures Cong(z3, 2 * d * g, p)
  {
    CongMul(2, 2, Z * h, d * g, p);
    assert 2 * (d * g) == 2 * d * g;
  }

  lemma AddX(x: int, d: int, e: int, g: int, xhh: int, hhh: int, ss: int, x3: int, p: int)
    requires p > 0 && Cong(x3, 4 * ss - 4 * hhh - 8 * xhh, p)
    requires Cong(ss, e * e * (g * g), p) && Cong(hhh, d * d * d * (g * g), p)
    requires Cong(xhh, x * (d * d) * (g * g), p)
    ensures Cong(x3, 4 * (e * e * (g * g)) - 4 * (d * d * d * (g * g)) - 8 * (x * (d * d) * (g * g)), p)
  {
    CongScale(4, ss, e * e * (g * g), p);
    CongScale(4, hhh, d * d * d * (g * g), p);
    CongScale(8, xhh, x * (d * d) * (g * g), p);
    CongSub(4 * ss, 4 * (e * e * (g * g)), 4 * hhh, 4 * (d * d * d * (g * g)), p);
    CongSub(4 * ss - 4 * hhh, 4 * (e * e * (g * g)) - 4 * (d * d * d * (g * g)), 8 * xhh, 8 * (x * (d * d) * (g * g)), p);
  }

  lemma AddY(x: int, y: int, d: int, e: int, g: int, xhh: int, yhhh: int, sm: int, x3: int, y3: int, p: int)
    requires p > 0 && Cong(y3, 2 * sm * (4 * xhh - x3) - 8 * yhhh, p) && Cong(sm, e * g, p)
    requires Cong(yhhh, y * (d * d * d) * (g * g * g), p)
    ensures Cong(y3, 2 * (e * g) * (4 * xhh - x3) - 8 * (y * (d * d * d) * (g * g * g)), p)
  {
    CongScale(2, sm, e * g, p);
    CongMul(2 * sm, 2 * (e * g), 4 * xhh - x3, 4 * xhh - x3, p);
    CongScale(8, yhhh, y * (d * d * d) * (g * g * g), p);
    CongSub(2 * sm * (4 * xhh - x3), 2 * (e * g) * (4 * xhh - x3), 8 * yhhh, 8 * (y * (d * d * d) * (g * g * g)), p);
  }

  /** The differences the code forms are the affine differences scaled by Z^2 and Z^3. */
  lemma AddDifferences(c: Curve, j: JacobianPoint, q: AffinePoint, r: AffinePoint, h: int, sm: int)
    requires c.p > 1 && Cong(j.x, q.x * (j.z * j.z), c.p) && Cong(j.y, q.y * (j.z * j.z * j.z), c.p)
    requires Cong(h, r.x * (j.z * j.z) - j.x, c.p) && Cong(sm, r.y * (j.z * j.z * j.z) - j.y, c.p)
    ensures Cong(h, (r.x - q.x) * (j.z * j.z), c.p) && Cong(sm, (r.y - q.y) * (j.z * j.z * j.z), c.p)
  {
    var z2, z3 := j.z * j.z, j.z * j.z * j.z;
    CongSub(r.x * z2, r.x * z2, j.x, q.x * z2, c.p);
    CongSub(r.y * z3, r.y * z3, j.y, q.y * z3, c.p);
    assert r.x * z2 - q.x * z2 == (r.x - q.x) * z2;
    assert r.y * z3 - q.y * z3 == (r.y - q.y) * z3;
  }

  /** A scaled difference vanishes exactly when the coordinates agree. */
  lemma DifferenceZero(c: Curve, h: int, a: int, b: int, s: int)
    requires IsCurve(c) && InField(c.p, h) && InField(c.p, a) && InField(c.p, b) && s % c.p != 0
    requires Cong(h, (b - a) * s, c.p)
    ensures h == 0 <==> a == b
  {
    FZero(c.p, h, (b - a) * s);
    NonzeroProduct(c.p, b - a, s);
    ModSmall(0, c.p);
    if a != b {
      DifferentCoordinates(c.p, a, b);
    }
  }

  /** Two points of the curve with one x-coordinate are equal or opposite. */
  lemma SameAbscissa(c: Curve, q: AffinePoint, r: AffinePoint)
    requires IsCurve(c) && OnCurve(c, q) && OnCurve(c, r) && !q.infinity && !r.infinity && q.x == r.x
    ensures q.y != r.y ==> FAdd(c.p, q.y, r.y) == 0
  {
    EquationForm(c, q);
    EquationForm(c, r);
    hide SatisfiesEquation;
    OppositeOrEqual(c.p, q.y, r.y);
  }

  lemma OppositeOrEqual(p: int, y: int, y': int)
    requires IsPrime(p) && InField(p, y) && InField(p, y') && Cong(y * y, y' * y', p)
    ensures y != y' ==> FAdd(p, y, y') == 0
  {
    CongDiff(y * y, y' * y', p);
    DifferenceOfSquares(y, y');
    PrimeDividesProduct(p, y' - y, -(y + y'));
    if y != y' {
      DifferentCoordinates(p, y, y');
      ModSmall(0, p);
      CongSub(0, 0, -(y + y'), 0, p);
    }
  }

  lemma DifferenceOfSquares(y: int, y': int)
    ensures y * y - y' * y' == (y' - y) * (-(y + y'))
  {
  }

  /** Mixed addition stands for the chord-and-tangent sum: equal, opposite and infinite points included. */
  lemma AddRepresents(c: Curve, j: JacobianPoint, q: AffinePoint, r: AffinePoint)
    requires IsCurve(c) && OnCurve(c, q) && OnCurve(c, r) && Represents(c, j, q)
    ensures Represents(c, JacobianAddAffine(c, j, r), Add(c, q, r))
  {
    if r.infinity || j.infinity || q.infinity {
      AffineRepresents(c, r);
    } else {
      var h, sm := AddBranch(c, j, r);
      AddDifferences(c, j, q, r, h, sm);
      PowersNonzero(c, j.z);
      DifferenceZero(c, h, q.x, r.x, j.z * j.z);
      DifferenceZero(c, sm, q.y, r.y, j.z * j.z * j.z);
      if h == 0 {
        SameAbscissa(c, q, r);
        DoubleRepresents(c, j, q);
        EqualPoints(c, q, r);
      } else {
        AddFiniteRepresents(c, j, q, r, h, sm);
      }
    }
  }

  lemma AffineRepresents(c: Curve, q: AffinePoint)
    requires c.p > 1 && WellFormed(c, q)
    ensures Represents(c, AffineToJacobian(q), q)
  {
  }

  lemma EqualPoints(c: Curve, q: AffinePoint, r: AffinePoint)
    requires c.p > 1 && !q.infinity && !r.infinity && q.x == r.x
    requires q.y != r.y ==> FAdd(c.p, q.y, r.y) == 0
    requires IsCurve(c) && InField(c.p, q.y)
    ensures q.y == r.y ==> Add(c, q, r) == Double(c, q)
    ensures q.y != r.y ==> Add(c, q, r) == INFINITY
  {
    if q.y == r.y && q.y != 0 {
      TwiceNonzero(c, q.y);
    }
  }

  lemma AddFiniteRepresents(c: Curve, j: JacobianPoint, q: AffinePoint, r: AffinePoint, h: int, sm: int)
    requires IsCurve(c) && OnCurve(c, q) && OnCurve(c, r) && Represents(c, j, q)
    requires !q.infinity && !r.infinity && q.x != r.x
    requires Cong(h, (r.x - q.x) * (j.z * j.z), c.p) && Cong(sm, (r.y - q.y) * (j.z * j.z * j.z), c.p)
    ensures Represents(c, AddFinite(c, j, h, sm), Add(c, q, r))
  {
    var slope := AddIsChord(c, q, r);
    var x3, y3, z3 := AddValues(c, j, h, sm);
    var t := Add(c, q, r);
    PowersNonzero(c, j.z);
    NonzeroProduct(c.p, 2 * (r.x - q.x), j.z * j.z * j.z);
    ModSmall(2, c.p);
    NonzeroProduct(c.p, 2, r.x - q.x);
    hide Add;
    hide AddFinite;
    hide OnCurve;
    AddCoordinates(j.x, j.y, j.z, q, r, slope, t, h, sm, x3, y3, z3, c);
    FZero(c.p, z3, 2 * (r.x - q.x) * (j.z * j.z * j.z));
  }

  /** The exits taken when Z3 is zero are dead on valid finite points: doubling a point with y != 0
      and adding points with different x-coordinates always give a finite result. */
  lemma ZeroExitsUnreachable(c: Curve, j: JacobianPoint, q: AffinePoint, r: AffinePoint)
    requires IsCurve(c) && OnCurve(c, q) && OnCurve(c, r) && Represents(c, j, q) && !q.infinity
    ensures JacobianDouble(c, j).infinity <==> j.y == 0
    ensures j.y == 0 <==> q.y == 0
    ensures !r.infinity && q.x != r.x ==> !JacobianAddAffine(c, j, r).infinity
  {
    DoubleRepresents(c, j, q);
    AddRepresents(c, j, q, r);
    PowersNonzero(c, j.z);
    ScaledZero(c, j.y, q.y, j.z, j.z * j.z * j.z);
    if q.y != 0 {
      FiniteDouble(c, q);
    }
  }

  /** In a group of odd order no point has y = 0, so there doubling a finite point is always finite. */
  lemma OddOrderHasNoZeroY(c: Curve, q: AffinePoint, n: nat)
    requires IsCurve(c) && Associative(c) && OnCurve(c, q) && !q.infinity
    requires n % 2 == 1 && Mul(c, n, q) == INFINITY
    ensures q.y != 0
  {
    hide *;
    CurveIsField(c);
    if q.y == 0 {
      DoubleOfZeroY(c, q);
      MulStep(c, 0, q);
      MulStep(c, 1, q);
      MulOne(c, q);
      MulModOrder(c, q, 2, n);
      assert false by { MulIsFinite(c, q); }
    }
  }

  lemma DoubleOfZeroY(c: Curve, q: AffinePoint)
    requires c.p > 1 && q.y == 0 && !q.infinity
    ensures Add(c, q, q) == INFINITY
  {
    ModSmall(0, c.p);
  }

  lemma MulIsFinite(c: Curve, q: AffinePoint)
    requires c.p > 1 && !q.infinity
    ensures Mul(c, 1, q) != INFINITY
  {
    MulOne(c, q);
  }

  // ----- back to affine -----

  /** Dividing by Z^2 and Z^3 recovers the point itself. */
  lemma ToAffineCorrect(c: Curve, j: JacobianPoint, q: AffinePoint)
    requires IsCurve(c) && OnCurve(c, q) && Represents(c, j, q)
    ensures JacobianToAffine(c, j) == q
  {
    if !j.infinity && !q.infinity {
      var p, Z := c.p, j.z;
      var i := FInv(p, Z);
      NonzeroInField(p, Z);
      FInvCorrect(p, Z);
      hide FInv;
      FMulCong(p, i, i, i, i);
      FMulCong(p, FMul(p, i, i), i * i, i, i);
      CongMul(Z * i, 1, Z * i, 1, p);
      CongMul(Z * i * (Z * i), 1, Z * i, 1, p);
      MulSwap(Z, i, Z, i);
      MulSwap(Z * Z, i * i, Z, i);
      Unscale(p, j.x, q.x, Z * Z, i * i, FMul(p, i, i));
      Unscale(p, j.y, q.y, Z * Z * Z, i * i * i, FMul(p, FMul(p, i, i), i));
    }
  }

  lemma Unscale(p: int, X: int, x: int, s: int, t: int, t': int)
    requires p > 0 && InField(p, x) && Cong(X, x * s, p) && Cong(s * t, 1, p) && Cong(t', t, p)
    ensures FMul(p, X, t') == x
  {
    FMulCong(p, X, x * s, t', t);
    assert x * s * t == x * (s * t);
    CongMul(x, x, s * t, 1, p);
    FUnique(p, FMul(p, X, t'), x);
  }
}
