/** Integer facts the arithmetic modules rest on: division with remainder, congruences,
    powers, primes, Fermat's little theorem and modular inverses. */
module NumberTheory {

  // ----- division with remainder -----

  lemma MulMagnitude(d: int, m: int)
    requires m > 0
    ensures d >= 1 ==> d * m >= m
    ensures d <= -1 ==> d * m <= -m
  {
  }

  lemma MulBound(x: int, x': int, y: int, y': int)
    requires 0 <= x <= x' && 0 <= y <= y'
    ensures 0 <= x * y <= x' * y'
  {
    assert x * y <= x * y';
    assert x * y' <= x' * y';
  }

  lemma MulCancelLess(x: int, y: int, r: int)
    requires r > 0 && x * r < y * r
    ensures x < y
  {
    assert (y - x) * r == y * r - x * r;
  }

  lemma MulTwice(v: int, x: int)
    ensures v * (2 * x) == 2 * (v * x)
  {
  }

  lemma SquareOfSum(x: int, y: int)
    ensures (x + y) * (x + y) == x * x + 2 * (x * y) + y * y
  {
  }

  lemma MulSwap(a: int, b: int, x: int, y: int)
    ensures (a * b) * (x * y) == (a * x) * (b * y)
  {
    assert (a * b) * (x * y) == a * (b * (x * y));
    assert b * (x * y) == x * (b * y);
  }

  /** Quotient and remainder are determined by `x == q * m + r` and `0 <= r < m`. */
  lemma DivModUnique(x: int, m: int, q: int, r: int)
    requires 0 <= r < m && x == q * m + r
    ensures x / m == q && x % m == r
  {
    var d := x / m - q;
    assert d * m == r - x % m by {
      assert x == (x / m) * m + x % m;
      assert (x / m) * m - q * m == d * m;
    }
    MulMagnitude(d, m);
  }

  lemma DivNonNegative(x: int, m: int)
    requires x >= 0 && m > 0
    ensures x / m >= 0 && x % m >= 0 && x == m * (x / m) + x % m
  {
    MulMagnitude(x / m, m);
  }

  lemma ModSmall(x: int, m: int)
    requires 0 <= x < m
    ensures x % m == x && x / m == 0
  {
    DivModUnique(x, m, 0, x);
  }

  lemma ModAddMultiple(x: int, k: int, m: int)
    requires m > 0
    ensures (x + k * m) % m == x % m
    ensures (x + k * m) / m == x / m + k
  {
    assert x == (x / m) * m + x % m;
    assert x + k * m == (x / m + k) * m + x % m;
    DivModUnique(x + k * m, m, x / m + k, x % m);
  }

  lemma ModMultiple(k: int, m: int)
    requires m > 0
    ensures (k * m) % m == 0 && (m * k) % m == 0
  {
    ModAddMultiple(0, k, m);
    ModSmall(0, m);
    assert k * m == m * k;
  }

  /** (x / a) / b == x / (a * b) for positive divisors. */
  lemma DivDiv(x: int, a: int, b: int)
    requires a > 0 && b > 0
    ensures a * b > 0 && (x / a) / b == x / (a * b)
    ensures x % (a * b) == ((x / a) % b) * a + x % a
  {
    var q, r := x / a, x % a;
    var q2, r2 := q / b, q % b;
    assert x == q * a + r && q == q2 * b + r2;
    MulBound(r2, b - 1, a, a);
    TwoDigits(x, a, b, q, r, q2, r2);
    DivModUnique(x, a * b, q2, r2 * a + r);
  }

  lemma TwoDigits(x: int, a: int, b: int, q: int, r: int, q2: int, r2: int)
    requires x == q * a + r && q == q2 * b + r2
    ensures x == q2 * (a * b) + (r2 * a + r) && (b - 1) * a == a * b - a
  {
    assert (q2 * b + r2) * a == (q2 * b) * a + r2 * a;
    assert (q2 * b) * a == q2 * (a * b);
  }

  /** Reducing modulo a multiple first does not change the residue. */
  lemma ModMod(x: int, a: int, b: int)
    requires a > 0 && b > 0
    ensures a * b > 0 && (x % (a * b)) % a == x % a
  {
    DivDiv(x, a, b);
    ModAddMultiple(x % a, (x / a) % b, a);
    ModSmall(x % a, a);
  }

  // ----- congruence -----

  predicate Cong(a: int, b: int, m: int)
    requires m > 0
  {
    a % m == b % m
  }

  lemma CongWitness(a: int, b: int, m: int) returns (k: int)
    requires m > 0 && Cong(a, b, m)
    ensures a == b + k * m
  {
    k := a / m - b / m;
    assert a == (a / m) * m + a % m && b == (b / m) * m + b % m;
    assert (a / m) * m - (b / m) * m == k * m;
  }

  lemma CongFrom(a: int, b: int, m: int, k: int)
    requires m > 0 && a == b + k * m
    ensures Cong(a, b, m)
  {
    ModAddMultiple(b, k, m);
  }

  lemma CongMod(a: int, m: int)
    requires m > 0
    ensures Cong(a % m, a, m)
  {
    ModSmall(a % m, m);
  }

  lemma CongAdd(a: int, a': int, b: int, b': int, m: int)
    requires m > 0 && Cong(a, a', m) && Cong(b, b', m)
    ensures Cong(a + b, a' + b', m)
  {
    var k := CongWitness(a, a', m);
    var l := CongWitness(b, b', m);
    assert k * m + l * m == (k + l) * m;
    CongFrom(a + b, a' + b', m, k + l);
  }

  lemma CongSub(a: int, a': int, b: int, b': int, m: int)
    requires m > 0 && Cong(a, a', m) && Cong(b, b', m)
    ensures Cong(a - b, a' - b', m)
  {
    var k := CongWitness(a, a', m);
    var l := CongWitness(b, b', m);
    assert k * m - l * m == (k - l) * m;
    CongFrom(a - b, a' - b', m, k - l);
  }

  lemma CongMul(a: int, a': int, b: int, b': int, m: int)
    requires m > 0 && Cong(a, a', m) && Cong(b, b', m)
    ensures Cong(a * b, a' * b', m)
  {
    var k := CongWitness(a, a', m);
    var l := CongWitness(b, b', m);
    hide Cong;
    MulDifference(a, a', k, m, b);
    MulDifference(b, b', l, m, a');
    CongFrom(a * b, a' * b', m, k * b + l * a');
  }

  lemma MulDifference(a: int, a': int, k: int, m: int, b: int)
    requires a == a' + k * m
    ensures a * b == a' * b + k * b * m && b * a == b * a' + k * b * m
  {
    assert (k * m) * b == k * b * m;
  }

  lemma CongSelf(x: int, m: int)
    requires m > 0
    ensures Cong(x, x, m)
  {
  }

  lemma CongTrans(a: int, b: int, c: int, p: int)
    requires p > 0 && Cong(a, b, p) && Cong(b, c, p)
    ensures Cong(a, c, p)
  {
  }

  /** a = b and c = b give a = c. */
  lemma CongChain(a: int, b: int, c: int, p: int)
    requires p > 0 && Cong(a, b, p) && Cong(c, b, p)
    ensures Cong(a, c, p)
  {
  }

  /** A difference divisible by m is a congruence. */
  lemma CongDiff(a: int, b: int, m: int)
    requires m > 0
    ensures Cong(a, b, m) <==> (a - b) % m == 0
  {
    ModSmall(0, m);
    if Cong(a, b, m) {
      CongSub(a, b, b, b, m);
    }
    if (a - b) % m == 0 {
      CongAdd(a - b, 0, b, b, m);
    }
  }

  /** Two residues in range that are congruent are equal. */
  lemma CongUnique(a: int, b: int, m: int)
    requires 0 <= a < m && 0 <= b < m && Cong(a, b, m)
    ensures a == b
  {
    ModSmall(a, m);
    ModSmall(b, m);
  }

  // ----- powers -----

  function Pow(b: int, e: nat): int
    decreases e
  {
    if e == 0 then 1 else b * Pow(b, e - 1)
  }

  lemma PowStep(b: int, e: nat)
    ensures Pow(b, e + 1) == b * Pow(b, e)
  {
  }

  lemma {:induction false} PowAdd(b: int, e: nat, f: nat)
    ensures Pow(b, e + f) == Pow(b, e) * Pow(b, f)
    decreases e
  {
    if e > 0 {
      PowAdd(b, e - 1, f);
      assert e + f - 1 == (e - 1) + f;
      assert b * (Pow(b, e - 1) * Pow(b, f)) == (b * Pow(b, e - 1)) * Pow(b, f);
    }
  }

  lemma {:induction false} PowMul(b: int, e: nat, f: nat)
    ensures e * f >= 0 && Pow(b, e * f) == Pow(Pow(b, e), f)
    decreases f
  {
    if f > 0 {
      PowMul(b, e, f - 1);
      assert e * f == e + e * (f - 1);
      PowAdd(b, e, e * (f - 1));
    }
  }

  lemma {:induction false} PowDistributes(a: int, b: int, e: nat)
    ensures Pow(a * b, e) == Pow(a, e) * Pow(b, e)
    decreases e
  {
    if e > 0 {
      PowDistributes(a, b, e - 1);
      MulSwap(a, b, Pow(a, e - 1), Pow(b, e - 1));
    }
  }

  lemma {:induction false} PowOne(e: nat)
    ensures Pow(1, e) == 1
    decreases e
  {
    if e > 0 {
      PowOne(e - 1);
    }
  }

  lemma {:induction false} PowPositive(b: int, e: nat)
    requires b > 0
    ensures Pow(b, e) > 0
    decreases e
  {
    if e > 0 {
      PowPositive(b, e - 1);
    }
  }

  lemma {:induction false} PowMonotone(b: int, e: nat, f: nat)
    requires b > 0 && e <= f
    ensures Pow(b, e) <= Pow(b, f)
    decreases f - e
  {
    PowPositive(b, e);
    PowPositive(b, f);
    if e < f {
      PowMonotone(b, e, f - 1);
      PowPositive(b, f - 1);
      assert b * Pow(b, f - 1) >= Pow(b, f - 1);
    }
  }

  lemma {:induction false} CongPow(a: int, b: int, e: nat, m: int)
    requires m > 0 && Cong(a, b, m)
    ensures Cong(Pow(a, e), Pow(b, e), m)
    decreases e
  {
    if e > 0 {
      CongPow(a, b, e - 1, m);
      CongMul(a, b, Pow(a, e - 1), Pow(b, e - 1), m);
    }
  }

  /** Powers of an odd modulus' 2-adic radix are invertible: if 2 has an inverse so has Pow(2, k). */
  lemma {:induction false} OddInverseOfPow2(m: int, k: nat) returns (inv: int)
    requires m > 0 && m % 2 == 1
    ensures Cong(Pow(2, k) * inv, 1, m)
    decreases k
  {
    if k == 0 {
      inv := 1;
    } else {
      var h := (m + 1) / 2;
      var i := OddInverseOfPow2(m, k - 1);
      inv := i * h;
      assert 2 * h == 1 + 1 * m;
      CongFrom(2 * h, 1, m, 1);
      CongMul(Pow(2, k - 1) * i, 1, 2 * h, 1, m);
      MulSwap(Pow(2, k - 1), i, 2, h);
    }
  }

  /** An invertible factor can be cancelled. */
  lemma CongCancelInverse(r: int, inv: int, a: int, b: int, m: int)
    requires m > 0 && Cong(r * inv, 1, m) && Cong(a * r, b * r, m)
    ensures Cong(a, b, m)
  {
    CongMul(a * r, b * r, inv, inv, m);
    CongMul(r * inv, 1, a, a, m);
    CongMul(r * inv, 1, b, b, m);
    assert (a * r) * inv == (r * inv) * a;
    assert (b * r) * inv == (r * inv) * b;
  }

  lemma InverseUnique(m: int, x: int, i: int, j: int)
    requires 0 <= i < m && 0 <= j < m && Cong(x * i, 1, m) && Cong(x * j, 1, m)
    ensures i == j
  {
    CongChain(i * x, 1, j * x, m);
    CongCancelInverse(x, i, i, j, m);
    CongUnique(i, j, m);
  }

  // ----- primes -----

  predicate Divides(d: int, n: int)
    requires d > 0
  {
    n % d == 0
  }

  ghost predicate IsPrime(p: int) {
    p >= 2 && forall d :: 2 <= d < p ==> !Divides(d, p)
  }

  /** Euclid's lemma for a residue: the descent replaces `a` by `p % a`. */
  lemma {:induction false} EuclidDescent(p: int, a: int, b: int)
    requires IsPrime(p) && 0 < a < p && (a * b) % p == 0
    ensures b % p == 0
    decreases a
  {
    if a > 1 {
      var r, k := p % a, p / a;
      assert !Divides(a, p);
      assert r == p - k * a;
      assert r * b == b * p - k * (a * b);
      var l := CongWitness(a * b, 0, p) by { ModSmall(0, p); }
      assert r * b == 0 + (b - k * l) * p by {
        assert k * (a * b) == (k * l) * p;
        assert b * p - (k * l) * p == (b - k * l) * p;
      }
      CongFrom(r * b, 0, p, b - k * l);
      ModSmall(0, p);
      EuclidDescent(p, r, b);
    }
  }

  lemma PrimeDividesProduct(p: int, a: int, b: int)
    requires IsPrime(p) && (a * b) % p == 0
    ensures a % p == 0 || b % p == 0
  {
    if a % p != 0 {
      CongMod(a, p);
      CongMul(a % p, a, b, b, p);
      EuclidDescent(p, a % p, b);
    }
  }

  lemma PrimeCancel(p: int, a: int, x: int, y: int)
    requires IsPrime(p) && a % p != 0 && Cong(a * x, a * y, p)
    ensures Cong(x, y, p)
  {
    CongDiff(a * x, a * y, p);
    assert a * x - a * y == a * (x - y);
    PrimeDividesProduct(p, a, x - y);
    CongDiff(x, y, p);
  }

  // ----- Fermat's little theorem -----

  lemma NonemptyHasMember(s: set<int>)
    requires s != {}
    ensures exists x :: x in s
  {
    assert (forall x :: x !in s) ==> s == {};
  }

  ghost function Product(s: set<int>): int {
    if s == {} then 1 else
      NonemptyHasMember(s);
      var x :| x in s;
      x * Product(s - {x})
  }

  lemma ProductPick(t: set<int>) returns (y: int)
    requires t != {}
    ensures y in t && Product(t) == y * Product(t - {y})
  {
    NonemptyHasMember(t);
    y :| y in t && Product(t) == y * Product(t - {y});
  }

  lemma MulExchange(x: int, y: int, z: int)
    ensures x * (y * z) == y * (x * z)
  {
  }

  lemma {:induction false} ProductInsert(s: set<int>, x: int)
    requires x !in s
    ensures Product(s + {x}) == x * Product(s)
    decreases s
  {
    var t := s + {x};
    var y := ProductPick(t);
    if y == x {
      assert t - {x} == s;
    } else {
      var u := s - {y};
      assert t - {y} == u + {x} && s == u + {y};
      ProductInsert(u, x);
      ProductInsert(u, y);
      MulExchange(x, y, Product(u));
    }
  }

  function Factorial(n: nat): int {
    if n == 0 then 1 else n * Factorial(n - 1)
  }

  lemma {:induction false} FactorialNonzero(p: int, n: nat)
    requires IsPrime(p) && n < p
    ensures Factorial(n) % p != 0
    decreases n
  {
    if n == 0 {
      ModSmall(1, p);
    } else {
      FactorialNonzero(p, n - 1);
      ModSmall(n, p);
      if Factorial(n) % p == 0 {
        PrimeDividesProduct(p, n, Factorial(n - 1));
      }
    }
  }

  /** The residues of a, 2a, ..., ka. */
  ghost function Multiples(a: int, p: int, k: nat): set<int>
    requires p > 0
  {
    if k == 0 then {} else Multiples(a, p, k - 1) + {(a * k) % p}
  }

  lemma {:induction false} MultiplesMember(a: int, p: int, k: nat, x: int) returns (i: int)
    requires p > 0 && x in Multiples(a, p, k)
    ensures 1 <= i <= k && x == (a * i) % p
    decreases k
  {
    if x == (a * k) % p {
      i := k;
    } else {
      i := MultiplesMember(a, p, k - 1, x);
    }
  }

  lemma MultipleIsNew(a: int, p: int, k: nat)
    requires IsPrime(p) && a % p != 0 && 1 <= k < p
    ensures (a * k) % p !in Multiples(a, p, k - 1) && (a * k) % p != 0
  {
    if (a * k) % p == 0 {
      PrimeDividesProduct(p, a, k);
      ModSmall(k, p);
    }
    if (a * k) % p in Multiples(a, p, k - 1) {
      var i := MultiplesMember(a, p, k - 1, (a * k) % p);
      PrimeCancel(p, a, k, i);
      CongUnique(k, i, p);
    }
  }

  /** The k residues are distinct, nonzero, and multiply to a^k * k! modulo p. */
  lemma {:induction false} MultiplesProduct(a: int, p: int, k: nat)
    requires IsPrime(p) && a % p != 0 && k < p
    ensures |Multiples(a, p, k)| == k
    ensures forall x :: x in Multiples(a, p, k) ==> 1 <= x < p
    ensures Cong(Product(Multiples(a, p, k)), Pow(a, k) * Factorial(k), p)
    decreases k
  {
    if k > 0 {
      MultiplesProduct(a, p, k - 1);
      MultipleIsNew(a, p, k);
      hide IsPrime;
      var s, x := Multiples(a, p, k - 1), (a * k) % p;
      ProductInsert(s, x);
      NextFactor(a, k, x, Product(s), Pow(a, k - 1), Factorial(k - 1), p);
    }
  }

  lemma NextFactor(a: int, k: int, x: int, product: int, power: int, factorial: int, p: int)
    requires p > 0 && x == (a * k) % p && Cong(product, power * factorial, p)
    ensures Cong(x * product, a * power * (k * factorial), p)
  {
    CongMod(a * k, p);
    hide Cong;
    CongMul(x, a * k, product, power * factorial, p);
    MulSwap(a, k, power, factorial);
  }

  lemma {:induction false} MultiplesOfOne(p: int, k: nat, i: int)
    requires 1 <= i <= k < p
    ensures i in Multiples(1, p, k)
    decreases k
  {
    if i < k {
      MultiplesOfOne(p, k - 1, i);
    } else {
      ModSmall(k, p);
    }
  }

  lemma SubsetSameSize(s: set<int>, t: set<int>)
    requires s <= t && |s| == |t|
    ensures s == t
  {
    assert t == s + (t - s);
    assert |t| == |s| + |t - s|;
  }

  lemma FermatLittle(p: int, a: int)
    requires IsPrime(p) && a % p != 0
    ensures Cong(Pow(a, p - 1), 1, p)
  {
    var s, u := Multiples(a, p, p - 1), Multiples(1, p, p - 1);
    ModSmall(1, p);
    MultiplesProduct(a, p, p - 1);
    MultiplesProduct(1, p, p - 1);
    forall x | x in s ensures x in u {
      MultiplesOfOne(p, p - 1, x);
    }
    SubsetSameSize(s, u);
    PowOne(p - 1);
    FactorialNonzero(p, p - 1);
    var f := Factorial(p - 1);
    assert Pow(a, p - 1) * f == f * Pow(a, p - 1) && 1 * f == f * 1;
    PrimeCancel(p, f, Pow(a, p - 1), 1);
  }

  /** The exponent p - 2 computes the inverse modulo a prime. */
  lemma FermatInverse(p: int, a: int)
    requires IsPrime(p) && a % p != 0
    ensures Cong(a * Pow(a, p - 2), 1, p) && Cong(Pow(a, p - 2) * a, 1, p)
  {
    FermatLittle(p, a);
    assert Pow(a, p - 1) == a * Pow(a, p - 2);
  }

  lemma FermatMultiple(p: int, a: int, q: nat, t: nat)
    requires IsPrime(p) && a % p != 0 && t == (p - 1) * q
    ensures Cong(Pow(a, t), 1, p)
  {
    PowMul(a, p - 1, q);
    FermatLittle(p, a);
    CongPow(Pow(a, p - 1), 1, q, p);
    PowOne(q);
  }

  lemma PowDropFactor(a: int, t: nat, r: nat, m: int)
    requires m > 0 && Cong(Pow(a, t), 1, m)
    ensures Cong(Pow(a, t + r), Pow(a, r), m)
  {
    PowAdd(a, t, r);
    CongMul(Pow(a, t), 1, Pow(a, r), Pow(a, r), m);
  }

  /** Exponents count modulo p - 1 for bases prime to p. */
  lemma FermatReduceExponent(p: int, a: int, e: nat)
    requires IsPrime(p) && a % p != 0
    ensures e % (p - 1) >= 0 && Cong(Pow(a, e), Pow(a, e % (p - 1)), p)
  {
    hide Cong;
    hide Pow;
    var q, t := Quotient(e, p - 1);
    FermatMultiple(p, a, q, t);
    PowDropFactor(a, t, e - t, p);
  }

  lemma Quotient(e: nat, m: int) returns (q: nat, t: nat)
    requires m > 0
    ensures t == m * q && 0 <= e - t == e % m
  {
    DivNonNegative(e, m);
    q, t := e / m, m * (e / m);
  }
}
