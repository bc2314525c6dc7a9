/** The arithmetic behind Montgomery reduction, independent of any limb layout. */
module Montgomery {
  import opened NumberTheory
  import opened Digits

  /** One Newton step doubles the number of low bits in which x inverts n. */
  lemma NewtonStep(n: int, x: int, y: int, b: int)
    requires b > 0 && Cong(n * x, 1, b) && Cong(y, x * (2 - n * x), b * b)
    ensures Cong(n * y, 1, b * b)
  {
    var t := CongWitness(n * x, 1, b);
    CongMul(n, n, y, x * (2 - n * x), b * b);
    NewtonError(n, x, t, b);
    hide Cong;
    CongFrom(n * (x * (2 - n * x)), 1, b * b, -(t * t));
    CongTrans(n * y, n * (x * (2 - n * x)), 1, b * b);
  }

  lemma NewtonError(n: int, x: int, t: int, b: int)
    requires n * x == 1 + t * b
    ensures n * (x * (2 - n * x)) == 1 + -(t * t) * (b * b)
  {
    var u := t * b;
    assert n * (x * (1 - u)) == (n * x) * (1 - u);
    assert (1 + u) * (1 - u) == 1 - u * u;
    assert u * u == (t * t) * (b * b);
  }

  /** A congruence modulo a multiple holds modulo the divisor. */
  lemma CongDivisor(a: int, b: int, m: int, k: int)
    requires m > 0 && k > 0 && m * k > 0 && Cong(a, b, m * k)
    ensures Cong(a, b, m)
  {
    var t := CongWitness(a, b, m * k);
    assert t * (m * k) == (t * k) * m;
    CongFrom(a, b, m, t * k);
  }

  /** The factor chosen from the lowest live limb makes that limb vanish. */
  lemma FactorClearsLimb(a: int, inv: int, n0: int, factor: int)
    requires (n0 * inv + 1) % BASE == 0 && factor == (a * inv) % BASE
    ensures (a + factor * n0) % BASE == 0
  {
    CongMod(a * inv, BASE);
    CongMul(factor, a * inv, n0, n0, BASE);
    CongAdd(a, a, factor * n0, (a * inv) * n0, BASE);
    assert a + (a * inv) * n0 == a * (n0 * inv + 1);
    CongMul(a, a, n0 * inv + 1, 0, BASE);
  }

  /** One reduction step: the total stays congruent to T modulo N and gains a factor BASE. */
  lemma ReductionStep(v: int, q: int, a: int, rest: int, factor: int, n: int, n0: int, n': int)
    requires q > 0 && v == q * (a + BASE * rest) && n == n0 + BASE * n'
    requires (a + factor * n0) % BASE == 0
    ensures q * BASE > 0 && (v + factor * n * q) % (q * BASE) == 0
  {
    var k := (a + factor * n0) / BASE;
    assert a + factor * n0 == k * BASE;
    var m := k + rest + factor * n';
    calc {
      v + factor * n * q;
      q * (a + BASE * rest) + factor * (n0 + BASE * n') * q;
      { assert factor * (n0 + BASE * n') == factor * n0 + BASE * (factor * n'); }
      q * (a + BASE * rest) + (factor * n0 + BASE * (factor * n')) * q;
      q * (a + BASE * rest + factor * n0 + BASE * (factor * n'));
      q * (m * BASE);
      m * (q * BASE);
    }
    ModMultiple(m, q * BASE);
  }

  /** (T + M*N) / R stays below 2N when T < N^2 and M < R. */
  lemma ReducedBound(u: int, r: int, t: int, m: int, n: int)
    requires 0 < n < r && 0 <= t < n * n && 0 <= m < r && u * r == t + m * n
    ensures 0 <= u < 2 * n
  {
    MulBound(n, n, n, r);
    MulBound(m, r - 1, n, n);
    assert (r - 1) * n == n * r - n;
    MulCancelLess(u, 2 * n, r) by { assert (2 * n) * r == 2 * (n * r); }
    MulCancelLess(-1, u, r);
  }

  lemma ProductBelow(a: int, b: int, n: int)
    requires 0 <= a < n && 0 <= b < n
    ensures 0 <= a * b < n * n
  {
    MulBound(a, n - 1, b, n);
    assert (n - 1) * n == n * n - n;
  }

  /** x represents y in the Montgomery domain of N with radix r. */
  predicate Represents(x: int, y: int, r: int, n: int)
    requires n > 0
  {
    Cong(x, y * r, n)
  }

  /** A Montgomery product of representatives represents the product. */
  lemma ProductRepresents(p: int, x: int, y: int, a: int, b: int, r: int, inv: int, n: int)
    requires n > 0 && Cong(r * inv, 1, n) && Cong(p * r, x * y, n)
    requires Represents(x, a, r, n) && Represents(y, b, r, n)
    ensures Represents(p, a * b, r, n)
  {
    CongMul(x, a * r, y, b * r, n);
    assert (a * r) * (b * r) == ((a * b) * r) * r by { MulSwap(a, r, b, r); }
    CongCancelInverse(r, inv, p, (a * b) * r, n);
  }

  /** Both registers of the ladder: r0 stands for base^k and r1 for base^(k+1). */
  ghost predicate LadderState(r0: int, r1: int, base: int, k: nat, radix: int, n: int)
    requires n > 0
  {
    Represents(r0, Pow(base, k), radix, n) && Represents(r1, Pow(base, k + 1), radix, n)
  }

  /** One ladder step on values: square one register, multiply the other. */
  lemma LadderStep(r0: int, r1: int, base: int, k: nat, radix: int, inv: int, n: int,
                   product: int, r0Squared: int, r1Squared: int)
    requires n > 0 && Cong(radix * inv, 1, n) && LadderState(r0, r1, base, k, radix, n)
    requires Cong(product * radix, r0 * r1, n)
    requires Cong(r0Squared * radix, r0 * r0, n) && Cong(r1Squared * radix, r1 * r1, n)
    ensures LadderState(r0Squared, product, base, 2 * k, radix, n)
    ensures LadderState(product, r1Squared, base, 2 * k + 1, radix, n)
  {
    var x, y := Pow(base, k), Pow(base, k + 1);
    ProductRepresents(product, r0, r1, x, y, radix, inv, n);
    ProductRepresents(r0Squared, r0, r0, x, x, radix, inv, n);
    ProductRepresents(r1Squared, r1, r1, y, y, radix, inv, n);
    PowAdd(base, k, k + 1);
    PowAdd(base, k, k);
    PowAdd(base, k + 1, k + 1);
  }

  /** Powers of two times 32-bit limbs: 2^(32 w) == BASE^w. */
  lemma {:induction false} PowBase(w: nat)
    ensures Pow(2, 32 * w) == Pow(BASE, w)
    decreases w
  {
    if w > 0 {
      PowBase(w - 1);
      PowAdd(2, 32, 32 * (w - 1));
      Pow32();
    }
  }

  lemma Pow32()
    ensures Pow(2, 32) == BASE
  {
    PowAdd(2, 16, 16);
    PowAdd(2, 8, 8);
    assert Pow(2, 8) == 256;
  }
}
