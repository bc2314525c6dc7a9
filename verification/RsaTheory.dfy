/** Why RSA works: the integers behind `src/rsa.cpp` and the relations `src/rsa_der.cpp` checks. */
module RsaTheory {
  import opened NumberTheory

  /** The integers of a private key (section 3.2 of RFC 8017). */
  datatype Key = Key(n: nat, e: nat, d: nat, p: nat, q: nat, dp: nat, dq: nat, qi: nat)

  /** Exactly what the private-key validation accepts; primality is not among it. */
  predicate KeyRelations(k: Key) {
    && k.p > 1 && k.q > 1
    && k.p * k.q == k.n
    && k.d % (k.p - 1) == k.dp && k.d % (k.q - 1) == k.dq
    && (k.e * k.dp) % (k.p - 1) == 1 && (k.e * k.dq) % (k.q - 1) == 1
    && (k.q * k.qi) % k.p == 1
  }

  /** An accepted key whose factors really are prime. */
  ghost predicate PrimeKey(k: Key) {
    KeyRelations(k) && IsPrime(k.p) && IsPrime(k.q)
  }

  // ----- the operations on integers -----

  function PrivateValue(k: Key, c: nat): int
    requires k.n > 0
  {
    Pow(c, k.d) % k.n
  }

  function PublicValue(k: Key, m: nat): int
    requires k.n > 0
  {
    Pow(m, k.e) % k.n
  }

  /** Garner's recombination, with the reductions the code performs. */
  function Recombine(m1: int, m2: int, p: int, q: int, qi: int, n: int): int
    requires p > 0 && n > 0
  {
    var h := (qi * ((m1 - m2) % p)) % p;
    (m2 + (q * h) % n) % n
  }

  function CrtValue(k: Key, c: nat): int
    requires k.p > 0 && k.q > 0 && k.n > 0
  {
    Recombine(Pow(c, k.dp) % k.p, Pow(c, k.dq) % k.q, k.p, k.q, k.qi, k.n)
  }

  /** One half of the blinded computation: blind, exponentiate, unblind with r^(prime - 2). */
  function UnblindedHalf(blinded: nat, r: nat, prime: int, exponent: nat): int
    requires prime > 1
  {
    var r' := r % prime;
    ((Pow(blinded, exponent) % prime) * (Pow(r', prime - 2) % prime)) % prime
  }

  function Blinded(k: Key, c: nat, r: nat): nat
    requires k.n > 0
  {
    (c * (Pow(r, k.e) % k.n)) % k.n
  }

  function BlindedCrtValue(k: Key, c: nat, r: nat): int
    requires k.p > 1 && k.q > 1 && k.n > 0
  {
    var blinded := Blinded(k, c, r);
    Recombine(UnblindedHalf(blinded, r, k.p, k.dp), UnblindedHalf(blinded, r, k.q, k.dq), k.p, k.q, k.qi, k.n)
  }

  // ----- one prime at a time -----

  /** `b` is e*d reduced: exponents that agree modulo prime - 1 and are positive give the same power. */
  lemma SameResidueExponents(prime: int, c: int, x: nat, y: nat)
    requires IsPrime(prime) && x > 0 && y > 0 && x % (prime - 1) == y % (prime - 1)
    ensures Cong(Pow(c, x), Pow(c, y), prime)
  {
    if c % prime == 0 {
      PowOfMultiple(prime, c, x);
      PowOfMultiple(prime, c, y);
    } else {
      FermatReduceExponent(prime, c, x);
      FermatReduceExponent(prime, c, y);
    }
  }

  lemma PowOfMultiple(prime: int, c: int, x: nat)
    requires prime > 1 && c % prime == 0 && x > 0
    ensures Pow(c, x) % prime == 0
  {
    PowStep(c, x - 1);
    ModSmall(0, prime);
    CongMul(c, 0, Pow(c, x - 1), Pow(c, x - 1), prime);
  }

  /** What the validation says about the half of the key that belongs to one prime. */
  ghost predicate HalfKey(prime: int, e: nat, d: nat, half: nat) {
    prime > 1 && d % (prime - 1) == half && (e * half) % (prime - 1) == 1
  }

  lemma HalfKeyFacts(prime: int, e: nat, d: nat, half: nat)
    requires HalfKey(prime, e, d, half)
    ensures prime > 2 && half > 0 && d > 0 && e > 0 && half < prime - 1
    ensures e * d > 0 && (e * d) % (prime - 1) == 1 && e * half > 0
    ensures half % (prime - 1) == d % (prime - 1)
  {
    var m := prime - 1;
    assert (e * half) % 1 == 0;
    ModSmall(0, m);
    CongMod(d, m);
    CongMul(e, e, half, d, m);
    assert half == 0 || e == 0 ==> e * half == 0;
    assert d == 0 ==> half == 0;
    MulBound(1, e, 1, d);
    MulBound(1, e, 1, half);
  }

  /** The short exponent gives the long exponent's power. */
  lemma HalfExponent(prime: int, e: nat, d: nat, half: nat, c: int)
    requires IsPrime(prime) && HalfKey(prime, e, d, half)
    ensures Cong(Pow(c, half), Pow(c, d), prime)
  {
    HalfKeyFacts(prime, e, d, half);
    SameResidueExponents(prime, c, half, d);
  }

  /** Raising to d and then to e is the identity modulo each prime. */
  lemma HalfRoundTrip(prime: int, e: nat, d: nat, half: nat, c: int)
    requires IsPrime(prime) && HalfKey(prime, e, d, half)
    ensures Cong(Pow(Pow(c, d), e), c, prime)
  {
    HalfKeyFacts(prime, e, d, half);
    assert e * d == d * e;
    PowMul(c, d, e);
    ModSmall(1, prime - 1);
    SameResidueExponents(prime, c, d * e, 1);
    PowStep(c, 0);
    assert Pow(c, 0) == 1;
  }

  /** e*half = 1 mod (prime-1) turns (r^e)^half into r, and r^(prime-2) then cancels it. */
  lemma HalfUnblinding(prime: int, e: nat, d: nat, half: nat, c: int, r: nat, blinded: int)
    requires IsPrime(prime) && HalfKey(prime, e, d, half) && r % prime != 0
    requires Cong(blinded, c * Pow(r, e), prime)
    ensures Cong(Pow(blinded, half) * Pow(r, prime - 2), Pow(c, half), prime)
  {
    HalfKeyFacts(prime, e, d, half);
    CongPow(blinded, c * Pow(r, e), half, prime);
    PowDistributes(c, Pow(r, e), half);
    PowMul(r, e, half);
    ModSmall(1, prime - 1);
    SameResidueExponents(prime, r, e * half, 1);
    PowStep(r, 0);
    assert Pow(r, 0) == 1;
    hide Pow;
    var x, y, z, inv := Pow(blinded, half), Pow(c, half), Pow(r, e * half), Pow(r, prime - 2);
    CongMul(y, y, z, r, prime);
    CongMul(x, y * r, inv, inv, prime);
    FermatInverse(prime, r);
    CongMul(y, y, r * inv, 1, prime);
    assert (y * r) * inv == y * (r * inv);
  }

  // ----- both primes together -----

  lemma KeyHalves(k: Key)
    requires KeyRelations(k)
    ensures HalfKey(k.p, k.e, k.d, k.dp) && HalfKey(k.q, k.e, k.d, k.dq)
    ensures k.n > 0 && k.p <= k.n && k.q <= k.n
  {
    MulBound(1, k.p, k.q, k.q);
    MulBound(k.p, k.p, 1, k.q);
  }

  /** The coefficient check forces the primes apart. */
  lemma DistinctPrimes(k: Key)
    requires PrimeKey(k)
    ensures k.p % k.q != 0
  {
    assert k.q < k.p ==> !Divides(k.q, k.p);
    ModMultiple(k.qi, k.p);
    if k.p % k.q == 0 {
      DivisorBound(k.p, k.q);
    }
  }

  lemma DivisorBound(x: int, m: int)
    requires x > 0 && m > 0 && x % m == 0
    ensures m <= x
  {
    if x < m {
      ModSmall(x, m);
    }
  }

  /** Numbers congruent modulo both primes are congruent modulo the product. */
  lemma ChineseRemainder(k: Key, x: int, y: int)
    requires PrimeKey(k) && k.n > 0 && Cong(x, y, k.p) && Cong(x, y, k.q)
    ensures Cong(x, y, k.n)
  {
    var t := CongWitness(x, y, k.p);
    CongDiff(x, y, k.q);
    assert x - y == k.p * t;
    PrimeDividesProduct(k.q, k.p, t);
    DistinctPrimes(k);
    ModSmall(0, k.q);
    var u := CongWitness(t, 0, k.q);
    assert t * k.p == u * (k.p * k.q);
    CongFrom(x, y, k.n, u);
  }

  /** Garner's formula lands in [0, n) without any reduction and has the right residues. */
  lemma RecombineCorrect(k: Key, m1: int, m2: int, x: int)
    requires PrimeKey(k) && k.n > 0
    requires 0 <= m1 < k.p && 0 <= m2 < k.q
    requires Cong(x, m1, k.p) && Cong(x, m2, k.q)
    ensures Recombine(m1, m2, k.p, k.q, k.qi, k.n) == x % k.n
  {
    var p, q, n := k.p, k.q, k.n;
    var h := (k.qi * ((m1 - m2) % p)) % p;
    GarnerBound(m2, h, p, q);
    ModSmall(q * h, n);
    ModSmall(m2 + q * h, n);
    GarnerModP(m1, m2, p, q, k.qi);
    assert q * h == h * q;
    CongFrom(m2 + q * h, m2, q, h);
    ChineseRemainder(k, m2 + q * h, x);
    CongMod(x, n);
    CongUnique(m2 + q * h, x % n, n);
  }

  lemma GarnerBound(m2: int, h: int, p: int, q: int)
    requires 0 <= m2 < q && 0 <= h < p
    ensures 0 <= q * h < p * q && 0 <= m2 + q * h < p * q
  {
    MulBound(h, p - 1, q, q);
    assert (p - 1) * q == p * q - q;
  }

  lemma GarnerModP(m1: int, m2: int, p: int, q: int, qi: int)
    requires p > 1 && (q * qi) % p == 1
    ensures Cong(m2 + q * ((qi * ((m1 - m2) % p)) % p), m1, p)
  {
    var d := (m1 - m2) % p;
    var h := (qi * d) % p;
    ModSmall(1, p);
    CongMod(qi * d, p);
    CongMod(m1 - m2, p);
    CongMul(q, q, h, qi * d, p);
    CongMul(q * qi, 1, d, m1 - m2, p);
    assert q * (qi * d) == (q * qi) * d;
    CongAdd(m2, m2, q * h, m1 - m2, p);
  }

  /** A power taken modulo n has the residue of the power modulo a divisor of n. */
  lemma ResidueOfModulus(x: int, n: int, p: int, q: int)
    requires p > 0 && q > 0 && n == p * q && n > 0
    ensures Cong(x % n, x, p) && Cong(x % n, x, q)
  {
    ModMod(x, p, q);
    ModMod(x, q, p);
    assert p * q == q * p;
  }

  /** CRT exponentiation is plain exponentiation. */
  lemma CrtIsPrivate(k: Key, c: nat)
    requires PrimeKey(k)
    ensures k.n > 0 && CrtValue(k, c) == PrivateValue(k, c)
  {
    KeyHalves(k);
    HalfExponent(k.p, k.e, k.d, k.dp, c);
    HalfExponent(k.q, k.e, k.d, k.dq, c);
    CongMod(Pow(c, k.dp), k.p);
    CongMod(Pow(c, k.dq), k.q);
    RecombineCorrect(k, Pow(c, k.dp) % k.p, Pow(c, k.dq) % k.q, Pow(c, k.d));
  }

  /** Each unblinded half is the unblinded residue. */
  lemma HalfBlinding(k: Key, prime: int, other: int, half: nat, c: nat, r: nat)
    requires IsPrime(prime) && other > 0 && k.n == prime * other && k.n > 0
    requires HalfKey(prime, k.e, k.d, half) && r % prime != 0
    ensures UnblindedHalf(Blinded(k, c, r), r, prime, half) == Pow(c, half) % prime
  {
    var b, power := Blinded(k, c, r), Pow(r, k.e);
    ResidueOfModulus(power, k.n, prime, other);
    ResidueOfModulus(c * (power % k.n), k.n, prime, other);
    CongMul(c, c, power % k.n, power, prime);
    HalfUnblinding(prime, k.e, k.d, half, c, r, b);
    var x, inv := Pow(b, half), Pow(r, prime - 2);
    CongMod(r, prime);
    CongPow(r % prime, r, prime - 2, prime);
    CongMod(x, prime);
    CongMod(Pow(r % prime, prime - 2), prime);
    CongMul(x % prime, x, Pow(r % prime, prime - 2) % prime, inv, prime);
  }

  /** Blinding changes nothing, for every factor the operation accepts. */
  lemma BlindingIsTransparent(k: Key, c: nat, r: nat)
    requires PrimeKey(k) && r % k.p != 0 && r % k.q != 0
    ensures k.n > 0 && BlindedCrtValue(k, c, r) == CrtValue(k, c)
  {
    KeyHalves(k);
    assert k.n == k.q * k.p;
    HalfBlinding(k, k.p, k.q, k.dp, c, r);
    HalfBlinding(k, k.q, k.p, k.dq, c, r);
  }

  /** The public operation undoes the private one on every representative. */
  lemma PublicUndoesPrivate(k: Key, c: nat)
    requires PrimeKey(k) && c < k.n
    ensures PrivateValue(k, c) >= 0 && PublicValue(k, PrivateValue(k, c)) == c
  {
    KeyHalves(k);
    var s := Pow(c, k.d);
    CongMod(s, k.n);
    CongPow(s % k.n, s, k.e, k.n);
    HalfRoundTrip(k.p, k.e, k.d, k.dp, c);
    HalfRoundTrip(k.q, k.e, k.d, k.dq, c);
    ChineseRemainder(k, Pow(s, k.e), c);
    ModSmall(c, k.n);
  }

  /** And the private operation undoes the public one. */
  lemma PrivateUndoesPublic(k: Key, m: nat)
    requires PrimeKey(k) && m < k.n
    ensures PublicValue(k, m) >= 0 && PrivateValue(k, PublicValue(k, m)) == m
  {
    KeyHalves(k);
    PublicUndoesPrivate(k, m);
    PowMul(m, k.e, k.d);
    PowMul(m, k.d, k.e);
    assert k.e * k.d == k.d * k.e;
    var s, t := Pow(m, k.e), Pow(m, k.d);
    CongMod(s, k.n);
    CongPow(s % k.n, s, k.d, k.n);
    CongMod(t, k.n);
    CongPow(t % k.n, t, k.e, k.n);
  }
}
