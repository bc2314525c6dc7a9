/** The two phases of a Montgomery multiplication on limbs, shared by the fixed-width integers
    (`src/rsa_fixed_bigint.cpp`), the variable-width ones (`src/bigint.cpp`) and, for the plain
    product, the P-256 field (`src/p256_fixed.cpp`). */
module MontgomeryLoops {
  import opened NumberTheory
  import opened Digits
  import opened LimbLoops
  import opened Montgomery

  /** `0 - x^-1 mod 2^32` for odd x, the constant both Montgomery multiplications start from. */
  method LowInverse(n0: Word) returns (r: Word)
    requires n0 % 2 == 1
    ensures (n0 * r + 1) % BASE == 0
  {
    var inverse: Word := 1;
    ghost var bits: nat := 1;
    for i := 0 to 5
      invariant bits == Pow(2, i)
      invariant Pow(2, bits) > 0 && Cong(n0 * inverse, 1, Pow(2, bits))
    {
      ghost var x := inverse;
      inverse := (inverse * ((2 - n0 * inverse) % BASE)) % BASE;
      NewtonIteration(n0, x, inverse, bits, i);
      bits := 2 * bits;
    }
    assert bits == 32 by { assert Pow(2, 5) == 32; }
    Pow32();
    r := (0 - inverse) % BASE;
    NegatedInverse(n0, inverse, r);
  }

  lemma NewtonIteration(n0: int, x: int, y: int, bits: nat, i: nat)
    requires i < 5 && bits == Pow(2, i) && Pow(2, bits) > 0 && Cong(n0 * x, 1, Pow(2, bits))
    requires y == (x * ((2 - n0 * x) % BASE)) % BASE
    ensures Pow(2, 2 * bits) > 0 && Cong(n0 * y, 1, Pow(2, 2 * bits))
  {
    var k := NewtonWidth(bits, i);
    NewtonResidue(n0, x, y, Pow(2, bits), k, BASE);
  }

  /** One step modulo `base`, of which the wanted precision b^2 is a divisor. */
  lemma NewtonResidue(n0: int, x: int, y: int, b: int, k: int, base: int)
    requires b > 0 && k > 0 && b * b * k == base > 0
    requires Cong(n0 * x, 1, b) && y == (x * ((2 - n0 * x) % base)) % base
    ensures b * b > 0 && Cong(n0 * y, 1, b * b)
  {
    ResidueProduct(x, 2 - n0 * x, base);
    hide Cong;
    CongDivisor(y, x * (2 - n0 * x), b * b, k);
    NewtonStep(n0, x, y, b);
  }

  lemma NewtonWidth(bits: nat, i: nat) returns (k: int)
    requires i < 5 && bits == Pow(2, i)
    ensures k > 0 && Pow(2, bits) > 0 && Pow(2, 2 * bits) == Pow(2, bits) * Pow(2, bits)
    ensures Pow(2, bits) * Pow(2, bits) * k == BASE
  {
    PowMonotone(2, i + 1, 5);
    assert Pow(2, 5) == 32 && Pow(2, i + 1) == 2 * bits;
    k := Pow(2, 32 - 2 * bits);
    PowAdd(2, bits, bits);
    PowAdd(2, 2 * bits, 32 - 2 * bits);
    PowPositive(2, 32 - 2 * bits);
    PowPositive(2, bits);
    Pow32();
  }

  lemma ResidueProduct(x: int, u: int, m: int)
    requires m > 0
    ensures Cong((x * (u % m)) % m, x * u, m)
  {
    CongMod(u, m);
    CongMul(x, x, u % m, u, m);
    CongMod(x * (u % m), m);
  }

  lemma NegatedInverse(n0: int, x: int, r: int)
    requires Cong(n0 * x, 1, BASE) && r == (0 - x) % BASE
    ensures (n0 * r + 1) % BASE == 0
  {
    CongMod(0 - x, BASE);
    CongMul(n0, n0, r, 0 - x, BASE);
    CongAdd(n0 * r, n0 * (0 - x), 1, n0 * x, BASE);
    assert n0 * (0 - x) + n0 * x == 0;
  }

  /** The schoolbook product in a double-width accumulator; no carry is lost. */
  method MultiplyInto(acc: array<Word>, lhs: seq<Word>, rhs: seq<Word>)
    requires acc.Length >= |lhs| + |rhs| && Val(acc[..]) == 0
    modifies acc
    ensures Val(acc[..]) == Val(lhs) * Val(rhs)
  {
    for i := 0 to |lhs|
      invariant Val(acc[..]) == Val(lhs[..i]) * Val(rhs)
    {
      var carry := AddProductRow(acc, i, lhs[i], rhs);
      AddCarry(acc, i + |rhs|, carry);
      PartialProductStep(lhs, rhs, i);
      PartialProductFits(lhs, rhs, i, acc.Length);
      ModSmall(Val(lhs[..i + 1]) * Val(rhs), Pow(BASE, acc.Length));
    }
    assert lhs[..|lhs|] == lhs;
  }

  lemma PartialProductStep(lhs: seq<Word>, rhs: seq<Word>, i: nat)
    requires i < |lhs|
    ensures Val(lhs[..i + 1]) * Val(rhs) == Val(lhs[..i]) * Val(rhs) + lhs[i] * Val(rhs) * Pow(BASE, i)
  {
    LeTake(lhs, i, BASE);
    DistributeRow(Val(lhs[..i]), lhs[i], Pow(BASE, i), Val(rhs));
  }

  lemma DistributeRow(v: int, x: int, p: int, r: int)
    ensures (v + x * p) * r == v * r + x * r * p
  {
    assert (x * p) * r == x * r * p;
  }

  lemma PartialProductFits(lhs: seq<Word>, rhs: seq<Word>, i: nat, length: nat)
    requires i < |lhs| && length >= |lhs| + |rhs|
    ensures 0 <= Val(lhs[..i + 1]) * Val(rhs) < Pow(BASE, length)
  {
    var a, b := Val(lhs[..i + 1]), Val(rhs);
    ValBound(lhs[..i + 1]);
    ValBound(rhs);
    MulBound(a, Pow(BASE, i + 1) - 1, b, Pow(BASE, |rhs|));
    PowPositive(BASE, |rhs|);
    PowAdd(BASE, i + 1, |rhs|);
    PowMonotone(BASE, i + 1 + |rhs|, length);
    assert (Pow(BASE, i + 1) - 1) * Pow(BASE, |rhs|) < Pow(BASE, i + 1) * Pow(BASE, |rhs|);
  }

  /** Montgomery reduction: every step adds the multiple of N that zeroes the lowest live limb.
      The upper limbs end up holding T / R modulo N, below 2N. */
  method ReduceInto(acc: array<Word>, modulus: seq<Word>, n0Inverse: Word)
    requires |modulus| > 0 && acc.Length > 2 * |modulus|
    requires (modulus[0] * n0Inverse + 1) % BASE == 0
    requires 0 < Val(modulus) && Val(acc[..]) < Val(modulus) * Val(modulus)
    modifies acc
    ensures Cong(Val(acc[|modulus|..]) * Pow(BASE, |modulus|), old(Val(acc[..])), Val(modulus))
    ensures Val(acc[|modulus|..]) < 2 * Val(modulus)
  {
    var width := |modulus|;
    ghost var t, n := Val(acc[..]), Val(modulus);
    ghost var m: nat := 0;
    for i := 0 to width
      invariant Pow(BASE, i) > 0 && m < Pow(BASE, i)
      invariant Val(acc[..]) == t + m * n && Val(acc[..]) % Pow(BASE, i) == 0
    {
      m := ReduceLimb(acc, i, modulus, n0Inverse, t, m);
    }
    LeDivMod(acc[..], width, BASE);
    assert acc[..][width..] == acc[width..];
    ReducedQuotient(Val(acc[..]), Val(acc[width..]), modulus, t, m);
  }

  lemma ReducedQuotient(v: int, u: int, modulus: seq<Word>, t: int, m: int)
    requires Pow(BASE, |modulus|) > 0 && v % Pow(BASE, |modulus|) == 0 && u == v / Pow(BASE, |modulus|)
    requires Val(modulus) > 0 && v == t + m * Val(modulus)
    requires 0 <= t < Val(modulus) * Val(modulus) && 0 <= m < Pow(BASE, |modulus|)
    ensures Cong(u * Pow(BASE, |modulus|), t, Val(modulus)) && u < 2 * Val(modulus)
  {
    var n, radix := Val(modulus), Pow(BASE, |modulus|);
    ValBound(modulus);
    assert u * radix == t + m * n;
    CongFrom(u * radix, t, n, m);
    ReducedBound(u, radix, t, m, n);
  }

  /** One step of the reduction, at limb i. */
  method ReduceLimb(acc: array<Word>, i: nat, modulus: seq<Word>, n0Inverse: Word, ghost t: nat, ghost m: nat)
    returns (ghost m': nat)
    requires i < |modulus| && acc.Length > 2 * |modulus|
    requires (modulus[0] * n0Inverse + 1) % BASE == 0
    requires t < Val(modulus) * Val(modulus) && Pow(BASE, i) > 0 && m < Pow(BASE, i)
    requires Val(acc[..]) == t + m * Val(modulus) && Val(acc[..]) % Pow(BASE, i) == 0
    modifies acc
    ensures Pow(BASE, i + 1) > 0 && m' < Pow(BASE, i + 1)
    ensures Val(acc[..]) == t + m' * Val(modulus) && Val(acc[..]) % Pow(BASE, i + 1) == 0
  {
    ghost var n, q, v := Val(modulus), Pow(BASE, i), Val(acc[..]);
    LiveLimb(acc[..], i);
    ghost var a, rest := acc[i], Val(acc[..][i + 1..]);
    var factor: Word := (acc[i] * n0Inverse) % BASE;
    FactorClearsLimb(a, n0Inverse, modulus[0], factor);
    var carry := AddProductRow(acc, i, factor, modulus);
    AddCarry(acc, i + |modulus|, carry);
    ReductionStep(v, q, a, rest, factor, n, modulus[0], Val(modulus[1..]));
    NextMultiple(t, m, factor, q, n);
    ReductionFits(modulus, t, m + factor * q, i, acc.Length);
    ModSmall(v + factor * n * q, Pow(BASE, acc.Length));
    m' := m + factor * q;
  }

  lemma NextMultiple(t: int, m: int, factor: int, q: int, n: int)
    requires 0 <= m < q && 0 <= factor < BASE
    ensures 0 <= m + factor * q < BASE * q
    ensures t + m * n + factor * n * q == t + (m + factor * q) * n
  {
    MulBound(factor, BASE - 1, q, q);
    assert factor * n * q == (factor * q) * n;
  }

  /** When the low i limbs are zero the number is BASE^i times the rest. */
  lemma LiveLimb(s: seq<Word>, i: nat)
    requires i < |s| && Pow(BASE, i) > 0 && Val(s) % Pow(BASE, i) == 0
    ensures Val(s) == Pow(BASE, i) * (s[i] + BASE * Val(s[i + 1..]))
  {
    LeDivMod(s, i, BASE);
    LeSplit(s, i, BASE);
    LeHead(s, i, BASE);
  }

  lemma ReductionFits(modulus: seq<Word>, t: int, m: int, i: nat, length: nat)
    requires i < |modulus| && length > 2 * |modulus|
    requires 0 <= t < Val(modulus) * Val(modulus) && 0 <= m < Pow(BASE, i + 1)
    ensures 0 <= t + m * Val(modulus) < Pow(BASE, length)
  {
    var w, n := |modulus|, Val(modulus);
    var r := Pow(BASE, w);
    ValBound(modulus);
    PowMonotone(BASE, i + 1, w);
    MulBound(n, r, n, r);
    MulBound(m, r, n, r);
    PowAdd(BASE, w, w);
    assert Pow(BASE, 2 * w + 1) == BASE * Pow(BASE, 2 * w);
    PowMonotone(BASE, 2 * w + 1, length);
    PowPositive(BASE, 2 * w);
  }
}
