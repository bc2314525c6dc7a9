/** The group of points of y^2 = x^3 + ax + b over a prime field: chord and tangent in affine
    coordinates, and multiples of a point (appendix A of FIPS 186-5, SP 800-186). */
module Weierstrass {
  import opened NumberTheory
  import opened PrimeField

  datatype Curve = Curve(p: int, a: int, b: int)

  datatype AffinePoint = AffinePoint(x: int, y: int, infinity: bool)

  const INFINITY := AffinePoint(0, 0, true)

  ghost predicate IsCurve(c: Curve) {
    IsPrime(c.p) && c.p > 3
  }

  /** Finite points have both coordinates in the field; infinity is normalised. */
  predicate WellFormed(c: Curve, q: AffinePoint) {
    if q.infinity then q == INFINITY else InField(c.p, q.x) && InField(c.p, q.y)
  }

  /** `is_on_curve_affine` on finite points. */
  predicate SatisfiesEquation(c: Curve, q: AffinePoint)
    requires c.p > 1
  {
    var p := c.p;
    FMul(p, q.y, q.y)
      == FAdd(p, FAdd(p, FMul(p, FMul(p, q.x, q.x), q.x), FMul(p, c.a, q.x)), c.b)
  }

  /** An element of the group: infinity, or a point satisfying the equation. */
  predicate OnCurve(c: Curve, q: AffinePoint)
    requires c.p > 1
  {
    WellFormed(c, q) && (q.infinity || SatisfiesEquation(c, q))
  }

  /** The equation as a congruence between integers. */
  ghost predicate Equation(c: Curve, x: int, y: int)
    requires c.p > 0
  {
    Cong(y * y, x * x * x + c.a * x + c.b, c.p)
  }

  lemma EquationForm(c: Curve, q: AffinePoint)
    requires c.p > 1
    ensures SatisfiesEquation(c, q) <==> Equation(c, q.x, q.y)
  {
    var p, x, y := c.p, q.x, q.y;
    FMulCong(p, y, y, y, y);
    FMulCong(p, x, x, x, x);
    FMulCong(p, FMul(p, x, x), x * x, x, x);
    FMulCong(p, c.a, c.a, x, x);
    FAddCong(p, FMul(p, FMul(p, x, x), x), x * x * x, FMul(p, c.a, x), c.a * x);
    FAddCong(p, FAdd(p, FMul(p, FMul(p, x, x), x), FMul(p, c.a, x)), x * x * x + c.a * x, c.b, c.b);
    if Equation(c, x, y) {
      FUnique(p, FMul(p, y, y), FAdd(p, FAdd(p, FMul(p, FMul(p, x, x), x), FMul(p, c.a, x)), c.b));
    }
  }

  // ----- chord and tangent -----

  /** `point_double_affine`. */
  function Double(c: Curve, q: AffinePoint): AffinePoint
    requires c.p > 1
  {
    if q.infinity || q.y == 0 then INFINITY else
      var p := c.p;
      var numerator := FAdd(p, FMul(p, 3, FMul(p, q.x, q.x)), c.a);
      var slope := FMul(p, numerator, FInv(p, FMul(p, 2, q.y)));
      var x3 := FSub(p, FMul(p, slope, slope), FMul(p, 2, q.x));
      AffinePoint(x3, FSub(p, FMul(p, slope, FSub(p, q.x, x3)), q.y), false)
  }

  /** The affine part of `p256_fixed_point_add` and `p256_point_add`. */
  function Add(c: Curve, q: AffinePoint, r: AffinePoint): AffinePoint
    requires c.p > 1
  {
    var p := c.p;
    if q.infinity then r
    else if r.infinity then q
    else if q.x == r.x then
      if FAdd(p, q.y, r.y) == 0 then INFINITY else Double(c, q)
    else
      var slope := FMul(p, FSub(p, r.y, q.y), FInv(p, FSub(p, r.x, q.x)));
      var x3 := FSub(p, FSub(p, FMul(p, slope, slope), q.x), r.x);
      AffinePoint(x3, FSub(p, FMul(p, slope, FSub(p, q.x, x3)), q.y), false)
  }

  /** What chord and tangent share: s is the point where the line of the given slope through q
      meets the curve again (x-coordinates summing to slope^2), reflected. */
  ghost predicate ThirdPoint(c: Curve, q: AffinePoint, x2: int, slope: int, s: AffinePoint)
    requires c.p > 0
  {
    && WellFormed(c, s) && !s.infinity
    && Cong(s.x, slope * slope - q.x - x2, c.p)
    && Cong(s.y, slope * (q.x - s.x) - q.y, c.p)
  }

  /** The tangent: slope * 2y = 3x^2 + a. */
  lemma DoubleIsTangent(c: Curve, q: AffinePoint) returns (slope: int)
    requires IsCurve(c) && OnCurve(c, q) && !q.infinity && q.y != 0
    ensures Cong(slope * (2 * q.y), 3 * (q.x * q.x) + c.a, c.p)
    ensures ThirdPoint(c, q, q.x, slope, Double(c, q))
  {
    var p, x, y := c.p, q.x, q.y;
    var numerator := FAdd(p, FMul(p, 3, FMul(p, x, x)), c.a);
    var denominator := FMul(p, 2, y);
    slope := FMul(p, numerator, FInv(p, denominator));
    FMulCong(p, x, x, x, x);
    FMulCong(p, 3, 3, FMul(p, x, x), x * x);
    FAddCong(p, FMul(p, 3, FMul(p, x, x)), 3 * (x * x), c.a, c.a);
    FMulCong(p, 2, 2, y, y);
    TwiceNonzero(c, y);
    CongNonzero(p, denominator, 2 * y);
    FDivCorrect(p, numerator, denominator);
    CongMul(slope, slope, denominator, 2 * y, p);
    var x3 := FSub(p, FMul(p, slope, slope), FMul(p, 2, x));
    FMulCong(p, slope, slope, slope, slope);
    FMulCong(p, 2, 2, x, x);
    FSubCong(p, FMul(p, slope, slope), slope * slope, FMul(p, 2, x), 2 * x);
    SlopeY(c, q, slope, x3);
  }

  lemma TwiceNonzero(c: Curve, y: int)
    requires IsCurve(c) && InField(c.p, y) && y != 0
    ensures (2 * y) % c.p != 0
  {
    NonzeroInField(c.p, y);
    ModSmall(2, c.p);
    NonzeroProduct(c.p, 2, y);
  }

  lemma SlopeY(c: Curve, q: AffinePoint, slope: int, x3: int)
    requires c.p > 0
    ensures Cong(FSub(c.p, FMul(c.p, slope, FSub(c.p, q.x, x3)), q.y), slope * (q.x - x3) - q.y, c.p)
  {
    var p := c.p;
    FSubCong(p, q.x, q.x, x3, x3);
    FMulCong(p, slope, slope, FSub(p, q.x, x3), q.x - x3);
    FSubCong(p, FMul(p, slope, FSub(p, q.x, x3)), slope * (q.x - x3), q.y, q.y);
  }

  /** The chord: slope * (x2 - x1) = y2 - y1. */
  lemma AddIsChord(c: Curve, q: AffinePoint, r: AffinePoint) returns (slope: int)
    requires IsCurve(c) && OnCurve(c, q) && OnCurve(c, r)
    requires !q.infinity && !r.infinity && q.x != r.x
    ensures (r.x - q.x) % c.p != 0 && Cong(slope * (r.x - q.x), r.y - q.y, c.p)
    ensures ThirdPoint(c, q, r.x, slope, Add(c, q, r))
  {
    var p := c.p;
    var numerator, denominator := FSub(p, r.y, q.y), FSub(p, r.x, q.x);
    slope := FMul(p, numerator, FInv(p, denominator));
    FSubCong(p, r.y, r.y, q.y, q.y);
    FSubCong(p, r.x, r.x, q.x, q.x);
    DifferentCoordinates(p, q.x, r.x);
    CongNonzero(p, denominator, r.x - q.x);
    FDivCorrect(p, numerator, denominator);
    CongMul(slope, slope, denominator, r.x - q.x, p);
    FMulCong(p, slope, slope, slope, slope);
    FSubCong(p, FMul(p, slope, slope), slope * slope, q.x, q.x);
    var d := FSub(p, FMul(p, slope, slope), q.x);
    FSubCong(p, d, slope * slope - q.x, r.x, r.x);
    SlopeY(c, q, slope, FSub(p, d, r.x));
  }

  lemma DifferentCoordinates(p: int, x: int, y: int)
    requires InField(p, x) && InField(p, y) && x != y
    ensures (y - x) % p != 0
  {
    CongDiff(y, x, p);
    if (y - x) % p == 0 {
      CongUnique(x, y, p);
    }
  }

  // ----- closure -----

  /** The cubic minus the squared line, at x. */
  function LineCubic(a: int, b: int, slope: int, x1: int, y1: int, x: int): int {
    var line := slope * (x - x1) + y1;
    x * x * x + a * x + b - line * line
  }

  function Alpha(a: int, slope: int, x1: int, x2: int, x3: int, y1: int): int {
    a - 2 * (slope * y1) + 2 * (slope * slope) * x1 - (x1 * x2 + x1 * x3 + x2 * x3)
  }

  function Beta(b: int, slope: int, x1: int, x2: int, x3: int, y1: int): int {
    b - (slope * slope) * x1 * x1 + 2 * (slope * y1) * x1 - y1 * y1 + x1 * x2 * x3
  }

  lemma CubeExpand(x: int, x1: int, x2: int, x3: int)
    ensures (x - x1) * (x - x2) * (x - x3)
         == x * x * x - (x1 + x2 + x3) * (x * x) + (x1 * x2 + x1 * x3 + x2 * x3) * x - x1 * x2 * x3
  {
    assert (x - x1) * (x - x2) == x * x - (x1 + x2) * x + x1 * x2;
  }

  lemma LineSquare(s: int, x: int, x1: int, y1: int)
    ensures (s * (x - x1) + y1) * (s * (x - x1) + y1)
         == (s * s) * (x * x) - 2 * (s * s) * x1 * x + (s * s) * x1 * x1
            + 2 * (s * y1) * x - 2 * (s * y1) * x1 + y1 * y1
  {
    var u := x - x1;
    SquareOfLine(s, u, y1);
    TimesSquareOfDifference(s * s, x, x1);
    assert 2 * (s * y1) * u == 2 * (s * y1) * x - 2 * (s * y1) * x1;
  }

  lemma SquareOfLine(s: int, u: int, y1: int)
    ensures (s * u + y1) * (s * u + y1) == (s * s) * (u * u) + 2 * (s * y1) * u + y1 * y1
  {
    assert s * u * (s * u) == (s * s) * (u * u);
  }

  lemma TimesSquareOfDifference(k: int, x: int, x1: int)
    ensures k * ((x - x1) * (x - x1)) == k * (x * x) - 2 * k * x1 * x + k * x1 * x1
  {
    assert (x - x1) * (x - x1) == x * x - 2 * (x1 * x) + x1 * x1;
    assert k * (x1 * x) == k * x1 * x && k * (x1 * x1) == k * x1 * x1;
  }

  /** With the roots x1, x2, x3 split off, what is left is linear. */
  lemma CubicSplits(a: int, b: int, slope: int, x1: int, x2: int, x3: int, y1: int, x: int)
    requires x3 == slope * slope - x1 - x2
    ensures LineCubic(a, b, slope, x1, y1, x)
         == (x - x1) * (x - x2) * (x - x3)
            + Alpha(a, slope, x1, x2, x3, y1) * x + Beta(b, slope, x1, x2, x3, y1)
  {
    CubeExpand(x, x1, x2, x3);
    LineSquare(slope, x, x1, y1);
    AlphaTimes(a, slope * y1, slope * slope, x1, x1 * x2 + x1 * x3 + x2 * x3, x);
  }

  lemma AlphaTimes(a: int, sy: int, l: int, x1: int, e2: int, x: int)
    ensures (a - 2 * sy + 2 * l * x1 - e2) * x == a * x - 2 * sy * x + 2 * l * x1 * x - e2 * x
  {
  }

  lemma {:induction false} VanishingProduct(x: int, y: int, z: int)
    ensures (x - x) * y * z == 0 && y * (x - x) * z == 0 && y * z * (x - x) == 0
  {
  }

  /** A root of the cubic is a root of the linear remainder at the first two abscissae. */
  lemma RemainderVanishes(c: Curve, slope: int, x1: int, x2: int, x3: int, y1: int, x: int, y: int)
    requires c.p > 0 && x3 == slope * slope - x1 - x2
    requires x == x1 || x == x2
    requires Equation(c, x, y) && Cong(slope * (x - x1) + y1, y, c.p)
    ensures Cong(Alpha(c.a, slope, x1, x2, x3, y1) * x + Beta(c.b, slope, x1, x2, x3, y1), 0, c.p)
  {
    CubicSplits(c.a, c.b, slope, x1, x2, x3, y1, x);
    if x == x1 {
      VanishingProduct(x1, x - x2, x - x3);
    } else {
      VanishingProduct(x2, x - x1, x - x3);
    }
    CubicVanishes(c, slope, x1, y1, x, y);
  }

  lemma CubicVanishes(c: Curve, slope: int, x1: int, y1: int, x: int, y: int)
    requires c.p > 0 && Equation(c, x, y) && Cong(slope * (x - x1) + y1, y, c.p)
    ensures Cong(LineCubic(c.a, c.b, slope, x1, y1, x), 0, c.p)
  {
    var line := slope * (x - x1) + y1;
    CongMul(line, y, line, y, c.p);
    var cubic := x * x * x + c.a * x + c.b;
    CongSub(cubic, cubic, line * line, cubic, c.p);
  }

  /** If the linear remainder is zero everywhere, the third point is on the curve. */
  lemma ThirdPointOnCurve(c: Curve, q: AffinePoint, x2: int, slope: int, s: AffinePoint)
    requires c.p > 1 && ThirdPoint(c, q, x2, slope, s)
    requires var x3 := slope * slope - q.x - x2;
             Cong(Alpha(c.a, slope, q.x, x2, x3, q.y), 0, c.p) && Cong(Beta(c.b, slope, q.x, x2, x3, q.y), 0, c.p)
    ensures OnCurve(c, s)
  {
    var p, x3 := c.p, slope * slope - q.x - x2;
    var alpha, beta := Alpha(c.a, slope, q.x, x2, x3, q.y), Beta(c.b, slope, q.x, x2, x3, q.y);
    CubicSplits(c.a, c.b, slope, q.x, x2, x3, q.y, x3);
    VanishingProduct(x3, x3 - q.x, x3 - x2);
    hide Alpha;
    hide Beta;
    CongMul(alpha, 0, x3, x3, p);
    CongAdd(alpha * x3, 0, beta, 0, p);
    ReflectedEquation(c, q.x, q.y, slope, x3, s.x, s.y);
    EquationForm(c, s);
  }

  lemma ReflectedEquation(c: Curve, x1: int, y1: int, slope: int, x3: int, x: int, y: int)
    requires c.p > 1 && Cong(LineCubic(c.a, c.b, slope, x1, y1, x3), 0, c.p)
    requires Cong(x, x3, c.p) && Cong(y, slope * (x1 - x) - y1, c.p)
    ensures Equation(c, x, y)
  {
    var p := c.p;
    var line := slope * (x3 - x1) + y1;
    CongSub(x1, x1, x, x3, p);
    CongMul(slope, slope, x1 - x, x1 - x3, p);
    CongSub(slope * (x1 - x), slope * (x1 - x3), y1, y1, p);
    assert slope * (x1 - x3) - y1 == -line;
    CongMul(y, -line, y, -line, p);
    assert (-line) * (-line) == line * line;
    var cubic := x3 * x3 * x3 + c.a * x3 + c.b;
    assert LineCubic(c.a, c.b, slope, x1, y1, x3) == cubic - line * line;
    CongDiff(cubic, line * line, p);
    ModSmall(0, p);
    CubicCong(c, x, x3);
  }

  lemma CubicCong(c: Curve, x: int, x': int)
    requires c.p > 0 && Cong(x, x', c.p)
    ensures Cong(x * x * x + c.a * x + c.b, x' * x' * x' + c.a * x' + c.b, c.p)
  {
    CongMul(x, x', x, x', c.p);
    CongMul(x * x, x' * x', x, x', c.p);
    CongMul(c.a, c.a, x, x', c.p);
    CongAdd(x * x * x, x' * x' * x', c.a * x, c.a * x', c.p);
    CongAdd(x * x * x + c.a * x, x' * x' * x' + c.a * x', c.b, c.b, c.p);
  }

  lemma AlphaTangent(a: int, slope: int, x: int, y: int, x3: int)
    requires x3 == slope * slope - x - x
    ensures Alpha(a, slope, x, x, x3, y) == (3 * (x * x) + a) - slope * (2 * y)
  {
    assert x * x3 == (slope * slope) * x - 2 * (x * x);
    assert slope * (2 * y) == 2 * (slope * y);
  }

  /** Doubling stays on the curve. */
  lemma DoubleOnCurve(c: Curve, q: AffinePoint)
    requires IsCurve(c) && OnCurve(c, q)
    ensures OnCurve(c, Double(c, q))
  {
    if !q.infinity && q.y != 0 {
      var slope := DoubleIsTangent(c, q);
      var p, x, y := c.p, q.x, q.y;
      var x3 := slope * slope - x - x;
      EquationForm(c, q);
      hide Double;
      AlphaTangent(c.a, slope, x, y, x3);
      CongDiff(3 * (x * x) + c.a, slope * (2 * y), p);
      ModSmall(0, p);
      assert slope * (x - x) + y == y;
      RemainderVanishes(c, slope, x, x, x3, y, x, y);
      BetaVanishes(c, slope, x, x, x3, y, x);
      ThirdPointOnCurve(c, q, x, slope, Double(c, q));
    }
  }

  lemma BetaVanishes(c: Curve, slope: int, x1: int, x2: int, x3: int, y1: int, x: int)
    requires c.p > 0
    requires Cong(Alpha(c.a, slope, x1, x2, x3, y1), 0, c.p)
    requires Cong(Alpha(c.a, slope, x1, x2, x3, y1) * x + Beta(c.b, slope, x1, x2, x3, y1), 0, c.p)
    ensures Cong(Beta(c.b, slope, x1, x2, x3, y1), 0, c.p)
  {
    hide Alpha;
    hide Beta;
    var alpha, beta := Alpha(c.a, slope, x1, x2, x3, y1), Beta(c.b, slope, x1, x2, x3, y1);
    CongMul(alpha, 0, x, x, c.p);
    CongSub(alpha * x + beta, 0, alpha * x, 0, c.p);
  }

  /** The sum of two points of the curve is a point of the curve. */
  lemma AddOnCurve(c: Curve, q: AffinePoint, r: AffinePoint)
    requires IsCurve(c) && OnCurve(c, q) && OnCurve(c, r)
    ensures OnCurve(c, Add(c, q, r))
  {
    if q.infinity || r.infinity {
    } else if q.x == r.x {
      DoubleOnCurve(c, q);
    } else {
      var slope := AddIsChord(c, q, r);
      EquationForm(c, q);
      EquationForm(c, r);
      hide Add;
      ChordOnCurve(c, q, r, slope, Add(c, q, r));
    }
  }

  lemma ChordOnCurve(c: Curve, q: AffinePoint, r: AffinePoint, slope: int, s: AffinePoint)
    requires IsCurve(c) && Equation(c, q.x, q.y) && Equation(c, r.x, r.y) && (r.x - q.x) % c.p != 0
    requires Cong(slope * (r.x - q.x), r.y - q.y, c.p) && ThirdPoint(c, q, r.x, slope, s)
    ensures OnCurve(c, s)
  {
    var p, x3 := c.p, slope * slope - q.x - r.x;
    var alpha, beta := Alpha(c.a, slope, q.x, r.x, x3, q.y), Beta(c.b, slope, q.x, r.x, x3, q.y);
    hide Equation;
    hide ThirdPoint;
    assert slope * (q.x - q.x) + q.y == q.y;
    RemainderVanishes(c, slope, q.x, r.x, x3, q.y, q.x, q.y);
    CongAdd(slope * (r.x - q.x), r.y - q.y, q.y, q.y, p);
    RemainderVanishes(c, slope, q.x, r.x, x3, q.y, r.x, r.y);
    hide Alpha;
    hide Beta;
    CongSub(alpha * r.x + beta, 0, alpha * q.x + beta, 0, p);
    assert (alpha * r.x + beta) - (alpha * q.x + beta) == alpha * (r.x - q.x);
    ModSmall(0, p);
    PrimeDividesProduct(p, alpha, r.x - q.x);
    BetaVanishes(c, slope, q.x, r.x, x3, q.y, q.x);
    ThirdPointOnCurve(c, q, r.x, slope, s);
  }

  // ----- multiples of a point -----

  /** The one fact about the group that is taken from outside: addition is associative. */
  ghost predicate Associative(c: Curve)
    requires c.p > 1
  {
    forall q, r, s :: OnCurve(c, q) && OnCurve(c, r) && OnCurve(c, s)
      ==> Add(c, Add(c, q, r), s) == Add(c, q, Add(c, r, s))
  }

  /** k times a point, by repeated addition. */
  function Mul(c: Curve, k: nat, q: AffinePoint): AffinePoint
    requires c.p > 1
  {
    if k == 0 then INFINITY else Add(c, Mul(c, k - 1, q), q)
  }

  lemma {:induction false} MulOnCurve(c: Curve, k: nat, q: AffinePoint)
    requires IsCurve(c) && OnCurve(c, q)
    ensures OnCurve(c, Mul(c, k, q))
    decreases k
  {
    if k > 0 {
      MulOnCurve(c, k - 1, q);
      AddOnCurve(c, Mul(c, k - 1, q), q);
    }
  }

  lemma AddInfinity(c: Curve, q: AffinePoint)
    requires c.p > 1 && WellFormed(c, q)
    ensures Add(c, q, INFINITY) == q && Add(c, INFINITY, q) == q
  {
  }

  lemma MulOne(c: Curve, q: AffinePoint)
    requires c.p > 1
    ensures Mul(c, 1, q) == q
  {
    assert Mul(c, 0, q) == INFINITY;
  }

  lemma MulStep(c: Curve, k: nat, q: AffinePoint)
    requires c.p > 1
    ensures Mul(c, 0, q) == INFINITY && Mul(c, k + 1, q) == Add(c, Mul(c, k, q), q)
  {
  }

  lemma Associate(c: Curve, q: AffinePoint, r: AffinePoint, s: AffinePoint)
    requires c.p > 1 && Associative(c) && OnCurve(c, q) && OnCurve(c, r) && OnCurve(c, s)
    ensures Add(c, Add(c, q, r), s) == Add(c, q, Add(c, r, s))
  {
  }

  lemma CurveIsField(c: Curve)
    requires IsCurve(c)
    ensures c.p > 3
  {
  }

  lemma PointWellFormed(c: Curve, q: AffinePoint)
    requires c.p > 1 && OnCurve(c, q)
    ensures WellFormed(c, q)
  {
  }

  lemma {:induction false} MulAdd(c: Curve, q: AffinePoint, j: nat, k: nat)
    requires IsCurve(c) && Associative(c) && OnCurve(c, q)
    ensures Add(c, Mul(c, j, q), Mul(c, k, q)) == Mul(c, j + k, q)
    decreases k
  {
    hide *;
    CurveIsField(c);
    MulOnCurve(c, j, q);
    PointWellFormed(c, Mul(c, j, q));
    AddInfinity(c, Mul(c, j, q));
    MulStep(c, 0, q);
    if k > 0 {
      MulAdd(c, q, j, k - 1);
      MulOnCurve(c, k - 1, q);
      MulStep(c, k - 1, q);
      MulStep(c, j + k - 1, q);
      Associate(c, Mul(c, j, q), Mul(c, k - 1, q), q);
    }
  }

  lemma {:induction false} MulMul(c: Curve, q: AffinePoint, j: nat, k: nat)
    requires IsCurve(c) && Associative(c) && OnCurve(c, q)
    ensures j * k >= 0 && Mul(c, j, Mul(c, k, q)) == Mul(c, j * k, q)
    decreases j
  {
    hide *;
    CurveIsField(c);
    MulBound(0, j, 0, k);
    MulStep(c, 0, q);
    MulStep(c, 0, Mul(c, k, q));
    if j > 0 {
      MulMul(c, q, j - 1, k);
      MulAdd(c, q, (j - 1) * k, k);
      MulStep(c, j - 1, Mul(c, k, q));
      assert (j - 1) * k + k == j * k;
    }
  }

  /** Multiples of a point of order n depend on the factor modulo n only. */
  lemma MulModOrder(c: Curve, q: AffinePoint, n: nat, k: nat)
    requires IsCurve(c) && Associative(c) && OnCurve(c, q) && n > 0 && Mul(c, n, q) == INFINITY
    ensures k % n >= 0 && Mul(c, k, q) == Mul(c, k % n, q)
  {
    hide *;
    CurveIsField(c);
    var quotient, t := Quotient(k, n);
    assert t == quotient * n;
    MulMul(c, q, quotient, n);
    MulOfInfinity(c, quotient);
    MulOnCurve(c, k - t, q);
    PointWellFormed(c, Mul(c, k - t, q));
    AddInfinity(c, Mul(c, k - t, q));
    MulAdd(c, q, t, k - t);
  }

  lemma {:induction false} MulOfInfinity(c: Curve, k: nat)
    requires c.p > 1
    ensures Mul(c, k, INFINITY) == INFINITY
    decreases k
  {
    if k > 0 {
      MulOfInfinity(c, k - 1);
    }
  }
}
