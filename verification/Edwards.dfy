/** Twisted Edwards curves -x^2 + y^2 = 1 + d x^2 y^2 over a prime field in which -1 is a square and d
    is not: the complete addition law, and the extended coordinates of `src/ed25519.cpp`. */
module Edwards {
  import opened NumberTheory
  import opened PrimeField

  datatype EdwardsCurve = EdwardsCurve(p: int, d: int, i: int)

  datatype EdPoint = EdPoint(x: int, y: int)

  const IDENTITY := EdPoint(0, 1)

  predicate SquareOf(x: int, a: int, p: int)
    requires p > 0
  {
    Cong(x * x, a, p)
  }

  ghost predicate IsSquare(a: int, p: int)
    requires p > 0
  {
    exists x :: SquareOf(x, a, p)
  }

  /** i is a square root of -1, d has no square root. */
  ghost predicate IsEdwards(c: EdwardsCurve) {
    IsPrime(c.p) && c.p > 2 && SquareOf(c.i, -1, c.p) && !IsSquare(c.d, c.p)
  }

  lemma EdwardsFacts(c: EdwardsCurve)
    requires IsEdwards(c)
    ensures IsPrime(c.p) && c.p > 2 && Cong(c.i * c.i, -1, c.p)
  {
  }

  ghost predicate Equation(c: EdwardsCurve, x: int, y: int)
    requires c.p > 0
  {
    Cong(y * y - x * x, 1 + c.d * (x * x * (y * y)), c.p)
  }

  ghost predicate OnCurve(c: EdwardsCurve, q: EdPoint)
    requires c.p > 0
  {
    InField(c.p, q.x) && InField(c.p, q.y) && Equation(c, q.x, q.y)
  }

  // ----- the law is complete -----

  /** d x1 x2 y1 y2, the quantity that must not be 1 or -1. */
  function Epsilon(c: EdwardsCurve, q: EdPoint, r: EdPoint): int {
    c.d * (q.x * q.y * (r.x * r.y))
  }

  /** A quotient of squares is a square. */
  lemma SquareRatio(a: int, d: int, b: int, p: int)
    requires IsPrime(p) && b % p != 0 && Cong(a * a, d * (b * b), p)
    ensures IsSquare(d, p)
  {
    var i := FInv(p, b);
    FInvCorrect(p, b);
    hide FInv;
    hide Cong;
    var bi := b * i;
    CongMul(bi, 1, bi, 1, p);
    CongMul(a * a, d * (b * b), i * i, i * i, p);
    MulSwap(a, a, i, i);
    DividedSquare(d, b, i);
    CongMul(d, d, bi * bi, 1, p);
    CongTrans(a * i * (a * i), d * (bi * bi), d, p);
    assert SquareOf(a * i, d, p);
  }

  lemma DividedSquare(d: int, b: int, i: int)
    ensures d * (b * b) * (i * i) == d * (b * i * (b * i))
  {
    MulSwap(b, b, i, i);
    assert d * (b * b) * (i * i) == d * (b * b * (i * i));
  }

  /** If epsilon is a unit s = 1 or -1, the curve equations make d a ratio of squares: with j^2 = -1,
      (j x1 + s y1)^2 = d (x1 y1)^2 (j x2 + y2)^2. */
  lemma UnitMakesSquare(d: int, x1: int, y1: int, x2: int, y2: int, j: int, s: int, p: int)
    requires p > 0 && s * s == 1 && Cong(j * j, -1, p)
    requires Cong(y1 * y1 - x1 * x1, 1 + d * (x1 * x1 * (y1 * y1)), p)
    requires Cong(y2 * y2 - x2 * x2, 1 + d * (x2 * x2 * (y2 * y2)), p)
    requires Cong(d * (x1 * y1 * (x2 * y2)), s, p)
    ensures Cong((j * x1 + s * y1) * (j * x1 + s * y1), d * (x1 * y1 * (j * x2 + y2) * (x1 * y1 * (j * x2 + y2))), p)
  {
    hide Cong;
    var m, n := x1 * y1, x2 * y2;
    var k := d * (m * m);
    var e := d * (m * n);
    MulSwap(x1, y1, x1, y1);
    MulSwap(x2, y2, x2, y2);
    KTimesCurve(d, m, n, y1 * y1 - x1 * x1, y2 * y2 - x2 * x2, s, p);
    KTimesCross(d, m, n, s, p);
    SquareWithRoot(j, x1, s * y1, p);
    SquareWithRoot(j, x2, y2, p);
    assert s * y1 * (s * y1) == y1 * y1 by { MulSwap(s, y1, s, y1); }
    LeftAndRight(j, k, s, m, n, x1, y1, x2, y2, p);
    var t := j * x2 + y2;
    assert d * (m * t * (m * t)) == k * (t * t) by { ScaledSquare(d, m, t); }
  }

  lemma ScaledSquare(d: int, m: int, t: int)
    ensures d * (m * t * (m * t)) == d * (m * m) * (t * t)
  {
    MulSwap(m, t, m, t);
    assert d * (m * m * (t * t)) == d * (m * m) * (t * t);
  }

  /** (j x + y)^2 = y^2 - x^2 + 2 j x y. */
  lemma SquareWithRoot(j: int, x: int, y: int, p: int)
    requires p > 0 && Cong(j * j, -1, p)
    ensures Cong((j * x + y) * (j * x + y), y * y - x * x + 2 * (j * (x * y)), p)
  {
    CongMul(j * j, -1, x * x, x * x, p);
    var z := y * y + 2 * (j * (x * y));
    CongAdd(j * j * (x * x), -1 * (x * x), z, z, p);
    SquareExpand(j, x, y);
  }

  lemma SquareExpand(j: int, x: int, y: int)
    ensures (j * x + y) * (j * x + y) == j * j * (x * x) + (y * y + 2 * (j * (x * y)))
  {
    MulSwap(j, x, j, x);
    assert j * x * y == j * (x * y);
    var a := j * x;
    assert (a + y) * (a + y) == a * a + 2 * (a * y) + y * y;
  }

  /** k (y2^2 - x2^2) = y1^2 - x1^2 when epsilon^2 = 1. */
  lemma KTimesCurve(d: int, m: int, n: int, u1: int, u2: int, s: int, p: int)
    requires p > 0 && s * s == 1 && Cong(u1, 1 + d * (m * m), p) && Cong(u2, 1 + d * (n * n), p)
    requires Cong(d * (m * n), s, p)
    ensures Cong(d * (m * m) * u2, u1, p)
  {
    var k, e := d * (m * m), d * (m * n);
    CongMul(k, k, u2, 1 + d * (n * n), p);
    CongMul(e, s, e, s, p);
    assert k * (1 + d * (n * n)) == k + k * (d * (n * n));
    assert k * (d * (n * n)) == e * e by {
      MulSwap(d, m * m, d, n * n);
      MulSwap(d, m * n, d, m * n);
      MulSwap(m, m, n, n);
    }
    CongAdd(k, k, e * e, s * s, p);
  }

  lemma KTimesCross(d: int, m: int, n: int, s: int, p: int)
    requires p > 0 && Cong(d * (m * n), s, p)
    ensures Cong(d * (m * m) * n, s * m, p)
  {
    CongMul(d * (m * n), s, m, m, p);
    assert d * (m * n) * m == d * (m * m) * n;
  }

  lemma LeftAndRight(j: int, k: int, s: int, m: int, n: int, x1: int, y1: int, x2: int, y2: int, p: int)
    requires p > 0 && m == x1 * y1 && n == x2 * y2
    requires Cong(k * (y2 * y2 - x2 * x2), y1 * y1 - x1 * x1, p) && Cong(k * n, s * m, p)
    requires Cong((j * x1 + s * y1) * (j * x1 + s * y1), y1 * y1 - x1 * x1 + 2 * (j * (x1 * (s * y1))), p)
    requires Cong((j * x2 + y2) * (j * x2 + y2), y2 * y2 - x2 * x2 + 2 * (j * (x2 * y2)), p)
    ensures Cong((j * x1 + s * y1) * (j * x1 + s * y1), k * ((j * x2 + y2) * (j * x2 + y2)), p)
  {
    hide Cong;
    var u1, u2, right := y1 * y1 - x1 * x1, y2 * y2 - x2 * x2, (j * x2 + y2) * (j * x2 + y2);
    CongSelf(k, p);
    CongSelf(2 * j, p);
    CongMul(k, k, right, u2 + 2 * (j * n), p);
    CongMul(2 * j, 2 * j, k * n, s * m, p);
    CongAdd(k * u2, u1, 2 * j * (k * n), 2 * j * (s * m), p);
    CrossTerms(j, k, u2, n, s, x1, y1);
    CongTrans(k * right, k * u2 + 2 * j * (k * n), u1 + 2 * j * (s * m), p);
    CongChain((j * x1 + s * y1) * (j * x1 + s * y1), u1 + 2 * j * (s * m), k * right, p);
  }

  lemma CrossTerms(j: int, k: int, u2: int, n: int, s: int, x1: int, y1: int)
    ensures k * (u2 + 2 * (j * n)) == k * u2 + 2 * j * (k * n)
    ensures 2 * j * (s * (x1 * y1)) == 2 * (j * (x1 * (s * y1)))
  {
    assert k * (2 * (j * n)) == 2 * j * (k * n);
    assert s * (x1 * y1) == x1 * (s * y1);
  }

  lemma UnitImpossible(c: EdwardsCurve, q: EdPoint, r: EdPoint, s: int)
    requires IsEdwards(c) && OnCurve(c, q) && OnCurve(c, r) && s * s == 1
    ensures !Cong(Epsilon(c, q, r), s, c.p)
  {
    var p, m, n := c.p, q.x * q.y, r.x * r.y;
    if Cong(Epsilon(c, q, r), s, p) {
      EdwardsFacts(c);
      assert c.i * c.i == (-c.i) * (-c.i);
      UnitMakesSquare(c.d, q.x, q.y, r.x, r.y, c.i, s, p);
      UnitMakesSquare(c.d, q.x, q.y, r.x, r.y, -c.i, s, p);
      UnitFactors(c.d, m, n, r.x, r.y, s, p);
      ConjugatesNotZero(c.i, r.x, r.y, p);
      var b := if (c.i * r.x + r.y) % p != 0 then c.i else -c.i;
      NonzeroProduct(p, m, b * r.x + r.y);
      SquareRatio(b * q.x + s * q.y, c.d, m * (b * r.x + r.y), p);
    }
  }

  lemma UnitFactors(d: int, m: int, n: int, x2: int, y2: int, s: int, p: int)
    requires IsPrime(p) && s * s == 1 && Cong(d * (m * n), s, p) && n == x2 * y2
    ensures m % p != 0 && y2 % p != 0
  {
    ModSmall(1, p);
    NonzeroProduct(p, s, s);
    NonzeroProduct(p, d, m * n);
    NonzeroProduct(p, m, n);
    NonzeroProduct(p, x2, y2);
  }

  /** j x + y and -j x + y cannot both vanish, for their sum is 2y. */
  lemma ConjugatesNotZero(j: int, x: int, y: int, p: int)
    requires IsPrime(p) && p > 2 && y % p != 0
    ensures (j * x + y) % p != 0 || (-j * x + y) % p != 0
  {
    if (j * x + y) % p == 0 && (-j * x + y) % p == 0 {
      ModSmall(0, p);
      CongAdd(j * x + y, 0, -j * x + y, 0, p);
      assert j * x + y + (-j * x + y) == 2 * y;
      ModSmall(2, p);
      NonzeroProduct(p, 2, y);
    }
  }

  /** The denominators of the addition law never vanish. */
  lemma Complete(c: EdwardsCurve, q: EdPoint, r: EdPoint)
    requires IsEdwards(c) && OnCurve(c, q) && OnCurve(c, r)
    ensures (1 + Epsilon(c, q, r)) % c.p != 0 && (1 - Epsilon(c, q, r)) % c.p != 0
  {
    var e := Epsilon(c, q, r);
    UnitImpossible(c, q, r, 1);
    UnitImpossible(c, q, r, -1);
    CongDiff(e, -1, c.p);
    CongDiff(1, e, c.p);
  }

  // ----- addition -----

  /** The complete addition law. */
  function Add(c: EdwardsCurve, q: EdPoint, r: EdPoint): EdPoint
    requires c.p > 1
  {
    var e := Epsilon(c, q, r);
    EdPoint(FMul(c.p, q.x * r.y + r.x * q.y, FInv(c.p, 1 + e)), FMul(c.p, q.y * r.y + q.x * r.x, FInv(c.p, 1 - e)))
  }

  lemma SumCoordinates(c: EdwardsCurve, q: EdPoint, r: EdPoint)
    requires IsEdwards(c) && OnCurve(c, q) && OnCurve(c, r)
    ensures var e, s := Epsilon(c, q, r), Add(c, q, r);
            && InField(c.p, s.x) && Cong(s.x * (1 + e), q.x * r.y + r.x * q.y, c.p)
            && InField(c.p, s.y) && Cong(s.y * (1 - e), q.y * r.y + q.x * r.x, c.p)
  {
    var e := Epsilon(c, q, r);
    Complete(c, q, r);
    FDivCorrect(c.p, q.x * r.y + r.x * q.y, 1 + e);
    FDivCorrect(c.p, q.y * r.y + q.x * r.x, 1 - e);
  }

  /** With x1 y2 . y1 x2 = y1 y2 . x1 x2 = w and e = d w. */
  lemma SumSide(d: int, s: int, r: int, w: int, e: int)
    requires e == d * w
    ensures (r + 2 * w) * ((1 + e) * (1 + e)) - (s + 2 * w) * ((1 - e) * (1 - e)) - d * ((s + 2 * w) * (r + 2 * w))
         == (r - s) * (1 + e * e) + 4 * (e * w) - d * (s * r)
  {
    var f := e * e;
    assert (1 + e) * (1 + e) == 1 + 2 * e + f && (1 - e) * (1 - e) == 1 - 2 * e + f;
    assert (s + 2 * w) * (r + 2 * w) == s * r + 2 * (w * (s + r)) + 4 * (w * w);
    SumSideExpand(d, s, r, w, e, f);
  }

  lemma SumSideExpand(d: int, s: int, r: int, w: int, e: int, f: int)
    requires e == d * w
    ensures (r + 2 * w) * (1 + 2 * e + f) - (s + 2 * w) * (1 - 2 * e + f) - d * (s * r + 2 * (w * (s + r)) + 4 * (w * w))
         == (r - s) * (1 + f) + 4 * (e * w) - d * (s * r)
  {
    PlusSide(r, w, e, f);
    MinusSide(s, w, e, f);
    CurveSide(d, s, r, w, e);
    assert (r - s) * (1 + f) == r - s + r * f - s * f;
  }

  lemma PlusSide(r: int, w: int, e: int, f: int)
    ensures (r + 2 * w) * (1 + 2 * e + f) == r + 2 * w + 2 * (e * r) + 4 * (e * w) + r * f + 2 * (w * f)
  {
    Expand3(r + 2 * w, 2 * e, f);
  }

  lemma MinusSide(s: int, w: int, e: int, f: int)
    ensures (s + 2 * w) * (1 - 2 * e + f) == s + 2 * w - 2 * (e * s) - 4 * (e * w) + s * f + 2 * (w * f)
  {
    Expand3(s + 2 * w, -2 * e, f);
  }

  lemma CurveSide(d: int, s: int, r: int, w: int, e: int)
    requires e == d * w
    ensures d * (s * r + 2 * (w * (s + r)) + 4 * (w * w)) == d * (s * r) + 2 * (e * s) + 2 * (e * r) + 4 * (e * w)
  {
    DistributeThree(d, s * r, 2 * (w * (s + r)), 4 * (w * w));
    MulThree(d, w, 2 * (s + r));
    MulThree(d, w, 4 * w);
  }

  lemma Expand3(a: int, b: int, c: int)
    ensures a * (1 + b + c) == a + a * b + a * c
  {
  }

  lemma MulThree(d: int, w: int, t: int)
    ensures d * (w * t) == d * w * t
  {
  }

  lemma DistributeThree(d: int, a: int, b: int, c: int)
    ensures d * (a + b + c) == d * a + d * b + d * c
  {
  }

  /** (p1 n)^2 + (p2 m)^2 = S R - 4 w^2 for m = x1 y1, n = x2 y2 and p = y^2 - x^2. */
  lemma CrossSquares(a: int, b: int, g: int, h: int, w: int)
    requires a * b == w && g * h == w
    ensures (b * g - a * h) * (b * g - a * h) + (a * g - h * b) * (a * g - h * b)
         == (a * a + b * b) * (g * g + h * h) - 4 * (w * w)
  {
    SquareOfDifference(b * g, a * h);
    SquareOfDifference(a * g, h * b);
    MulSwap(b, g, a, h);
    MulSwap(a, g, h, b);
    assert b * g * (a * h) == w * w && a * g * (h * b) == w * w by {
      assert b * a * (g * h) == w * w;
      assert a * h * (g * b) == w * w by { MulSwap(a, h, b, g); }
    }
    MulSwap(b, g, b, g);
    MulSwap(a, h, a, h);
    MulSwap(a, g, a, g);
    MulSwap(h, b, h, b);
    FourSquares(a * a, b * b, g * g, h * h);
  }

  lemma SquareOfDifference(x: int, y: int)
    ensures (x - y) * (x - y) == x * x - 2 * (x * y) + y * y
  {
  }

  lemma FourSquares(a: int, b: int, g: int, h: int)
    ensures (a + b) * (g + h) == a * g + a * h + b * g + b * h
  {
  }

  /** The product of the two curve expressions, regrouped. */
  lemma ProductSide(d: int, p1: int, p2: int, m: int, n: int, w: int, e: int, rs: int, sr: int)
    requires w == m * n && e == d * w && p1 * p2 == rs
    requires p1 * n * (p1 * n) + p2 * m * (p2 * m) == sr - 4 * (w * w)
    ensures (p1 - p2 * (d * (m * m))) * (p2 - p1 * (d * (n * n))) == rs * (1 + e * e) + 4 * (e * w) - d * sr
  {
    var k, l := d * (m * m), d * (n * n);
    assert k * l == e * e by {
      MulSwap(d, m * m, d, n * n);
      MulSwap(d, w, d, w);
      MulSwap(m, m, n, n);
    }
    assert (p1 - p2 * k) * (p2 - p1 * l) == p1 * p2 - p1 * p1 * l - p2 * p2 * k + p2 * k * (p1 * l);
    assert p2 * k * (p1 * l) == rs * (k * l) by { MulSwap(p2, k, p1, l); }
    assert p1 * p1 * l + p2 * p2 * k == d * (sr - 4 * (w * w)) by {
      MulSwap(p1, n, p1, n);
      MulSwap(p2, m, p2, m);
      FactorOut(d, p1 * p1, n * n, p2 * p2, m * m);
    }
    assert d * (4 * (w * w)) == 4 * (e * w) by { MulThree(d, w, w); }
    DistributeThree(d, sr, -4 * (w * w), 0);
    assert rs * (1 + e * e) == rs + rs * (e * e);
  }

  lemma FactorOut(d: int, a: int, b: int, a': int, b': int)
    ensures a * (d * b) + a' * (d * b') == d * (a * b + a' * b')
  {
    assert a * (d * b) == d * (a * b) && a' * (d * b') == d * (a' * b');
  }

  /** The identity behind closure: the numerators satisfy the curve equation over the denominators. */
  lemma AdditionIdentity(d: int, x1: int, y1: int, x2: int, y2: int)
    ensures var (m, n) := (x1 * y1, x2 * y2);
            var (e, n1, n2) := (d * (m * n), x1 * y2 + x2 * y1, y1 * y2 + x1 * x2);
            n2 * n2 * ((1 + e) * (1 + e)) - n1 * n1 * ((1 - e) * (1 - e)) - d * (n1 * n1 * (n2 * n2))
              == (y1 * y1 - x1 * x1 - (y2 * y2 - x2 * x2) * (d * (m * m)))
                 * (y2 * y2 - x2 * x2 - (y1 * y1 - x1 * x1) * (d * (n * n)))
  {
    var m, n := x1 * y1, x2 * y2;
    var w := m * n;
    var a, b, g, h := x1 * y2, x2 * y1, y1 * y2, x1 * x2;
    assert a * b == w && g * h == w by { FourProducts(x1, y1, x2, y2); }
    var s, r := a * a + b * b, g * g + h * h;
    SquareOfSum(a, b);
    SquareOfSum(g, h);
    SumSide(d, s, r, w, d * w);
    CrossSquares(a, b, g, h, w);
    var p1, p2 := y1 * y1 - x1 * x1, y2 * y2 - x2 * x2;
    assert p1 * p2 == r - s by { DifferenceProduct(x1, y1, x2, y2); }
    assert p1 * n == b * g - a * h && p2 * m == a * g - h * b by { MixedProducts(x1, y1, x2, y2); }
    ProductSide(d, p1, p2, m, n, w, d * w, r - s, s * r);
  }

  lemma FourProducts(x1: int, y1: int, x2: int, y2: int)
    ensures x1 * y2 * (x2 * y1) == x1 * y1 * (x2 * y2) && y1 * y2 * (x1 * x2) == x1 * y1 * (x2 * y2)
  {
    MulSwap(x1, y2, y1, x2);
    MulSwap(y1, y2, x1, x2);
  }

  lemma DifferenceProduct(x1: int, y1: int, x2: int, y2: int)
    ensures (y1 * y1 - x1 * x1) * (y2 * y2 - x2 * x2)
         == y1 * y2 * (y1 * y2) + x1 * x2 * (x1 * x2) - (x1 * y2 * (x1 * y2) + x2 * y1 * (x2 * y1))
  {
    MulSwap(y1, y2, y1, y2);
    MulSwap(x1, x2, x1, x2);
    MulSwap(x1, y2, x1, y2);
    MulSwap(x2, y1, x2, y1);
    FourSquares(y1 * y1, -(x1 * x1), y2 * y2, -(x2 * x2));
  }

  lemma MixedProducts(x1: int, y1: int, x2: int, y2: int)
    ensures (y1 * y1 - x1 * x1) * (x2 * y2) == x2 * y1 * (y1 * y2) - x1 * y2 * (x1 * x2)
    ensures (y2 * y2 - x2 * x2) * (x1 * y1) == x1 * y2 * (y1 * y2) - x1 * x2 * (x2 * y1)
  {
    assert y1 * y1 * (x2 * y2) == x2 * y1 * (y1 * y2) && x1 * x1 * (x2 * y2) == x1 * y2 * (x1 * x2) by {
      MulSwap(y1, y1, x2, y2);
      MulSwap(x1, x1, y2, x2);
    }
    assert y2 * y2 * (x1 * y1) == x1 * y2 * (y1 * y2) && x2 * x2 * (x1 * y1) == x1 * x2 * (x2 * y1) by {
      MulSwap(y2, y2, x1, y1);
      MulSwap(x2, x2, x1, y1);
    }
  }

  /** On the curve both factors are 1 - e^2. */
  lemma CurveFactor(d: int, p1: int, p2: int, k: int, l: int, e: int, p: int)
    requires p > 0 && Cong(p1, 1 + k, p) && Cong(p2, 1 + l, p) && k * l == e * e
    ensures Cong(p1 - p2 * k, (1 + e) * (1 - e), p)
  {
    CongMul(p2, 1 + l, k, k, p);
    CongSub(p1, 1 + k, p2 * k, (1 + l) * k, p);
    assert 1 + k - (1 + l) * k == 1 - e * e;
    assert (1 + e) * (1 - e) == 1 - e * e;
  }

  /** The sum of two points of the curve is a point of the curve. */
  lemma AddOnCurve(c: EdwardsCurve, q: EdPoint, r: EdPoint)
    requires IsEdwards(c) && OnCurve(c, q) && OnCurve(c, r)
    ensures OnCurve(c, Add(c, q, r))
  {
    var s, e := Add(c, q, r), Epsilon(c, q, r);
    SumCoordinates(c, q, r);
    Complete(c, q, r);
    ClosureIdentity(c, q, r, e);
    hide Add;
    hide Epsilon;
    ScaledEquation(c, s.x, s.y, q.x * r.y + r.x * q.y, q.y * r.y + q.x * r.x, 1 + e, 1 - e);
  }

  lemma ClosureIdentity(c: EdwardsCurve, q: EdPoint, r: EdPoint, e: int)
    requires c.p > 0 && OnCurve(c, q) && OnCurve(c, r) && e == Epsilon(c, q, r)
    ensures var n1, n2 := q.x * r.y + r.x * q.y, q.y * r.y + q.x * r.x;
            Cong(n2 * n2 * ((1 + e) * (1 + e)) - n1 * n1 * ((1 - e) * (1 - e)) - c.d * (n1 * n1 * (n2 * n2)),
                 (1 + e) * (1 - e) * ((1 + e) * (1 - e)), c.p)
  {
    var d, m, n := c.d, q.x * q.y, r.x * r.y;
    var p1, p2 := q.y * q.y - q.x * q.x, r.y * r.y - r.x * r.x;
    var k, l := d * (m * m), d * (n * n);
    MulSwap(q.x, q.y, q.x, q.y);
    MulSwap(r.x, r.y, r.x, r.y);
    AdditionIdentity(d, q.x, q.y, r.x, r.y);
    assert k * l == e * e by {
      MulSwap(d, m * m, d, n * n);
      MulSwap(d, m * n, d, m * n);
      MulSwap(m, m, n, n);
    }
    CurveFactor(d, p1, p2, k, l, e, c.p);
    assert l * k == e * e;
    CurveFactor(d, p2, p1, l, k, e, c.p);
    CongMul(p1 - p2 * k, (1 + e) * (1 - e), p2 - p1 * l, (1 + e) * (1 - e), c.p);
  }

  /** Dividing the identity by the squared denominators. */
  lemma ScaledEquation(c: EdwardsCurve, x: int, y: int, n1: int, n2: int, a: int, b: int)
    requires IsEdwards(c) && a % c.p != 0 && b % c.p != 0 && Cong(x * a, n1, c.p) && Cong(y * b, n2, c.p)
    requires Cong(n2 * n2 * (a * a) - n1 * n1 * (b * b) - c.d * (n1 * n1 * (n2 * n2)), a * b * (a * b), c.p)
    ensures Equation(c, x, y)
  {
    EdwardsFacts(c);
    hide Cong;
    hide IsEdwards;
    var p, w := c.p, a * b * (a * b);
    ScaledSquares(x, y, n1, n2, a, b, p);
    CongMul(c.d, c.d, x * x * (y * y) * w, n1 * n1 * (n2 * n2), p);
    CongSub(y * y * w, n2 * n2 * (a * a), x * x * w, n1 * n1 * (b * b), p);
    var left := y * y * w - x * x * w - c.d * (x * x * (y * y) * w);
    CongSub(y * y * w - x * x * w, n2 * n2 * (a * a) - n1 * n1 * (b * b), c.d * (x * x * (y * y) * w), c.d * (n1 * n1 * (n2 * n2)), p);
    CongTrans(left, n2 * n2 * (a * a) - n1 * n1 * (b * b) - c.d * (n1 * n1 * (n2 * n2)), w, p);
    assert left == w * (y * y - x * x - c.d * (x * x * (y * y))) by {
      CommonFactor(w, y * y, x * x, c.d, x * x * (y * y));
    }
    NonzeroProduct(p, a, b);
    NonzeroProduct(p, a * b, a * b);
    PrimeCancel(p, w, y * y - x * x - c.d * (x * x * (y * y)), 1);
    var z := c.d * (x * x * (y * y));
    CongSelf(z, p);
    CongAdd(y * y - x * x - z, 1, z, z, p);
  }

  lemma CommonFactor(w: int, a: int, b: int, d: int, f: int)
    ensures a * w - b * w - d * (f * w) == w * (a - b - d * f)
  {
    assert d * (f * w) == w * (d * f);
  }

  lemma ScaledSquares(x: int, y: int, n1: int, n2: int, a: int, b: int, p: int)
    requires p > 0 && Cong(x * a, n1, p) && Cong(y * b, n2, p)
    ensures var w := a * b * (a * b);
            && Cong(y * y * w, n2 * n2 * (a * a), p) && Cong(x * x * w, n1 * n1 * (b * b), p)
            && Cong(x * x * (y * y) * w, n1 * n1 * (n2 * n2), p)
  {
    hide Cong;
    CongMul(x * a, n1, x * a, n1, p);
    CongMul(y * b, n2, y * b, n2, p);
    CongSelf(a * a, p);
    CongSelf(b * b, p);
    CongMul(y * b * (y * b), n2 * n2, a * a, a * a, p);
    CongMul(x * a * (x * a), n1 * n1, b * b, b * b, p);
    CongMul(x * a * (x * a), n1 * n1, y * b * (y * b), n2 * n2, p);
    MulSwap(y, b, y, b);
    MulSwap(x, a, x, a);
    MulSwap(a, b, a, b);
    RegroupSquares(x * x, y * y, a * a, b * b);
  }

  lemma RegroupSquares(x: int, y: int, a: int, b: int)
    ensures y * b * a == y * (a * b) && x * a * b == x * (a * b) && x * a * (y * b) == x * y * (a * b)
  {
    MulSwap(x, a, y, b);
    assert y * b * a == y * (a * b);
  }
}
