/** Arithmetic in the integers modulo a prime, on the representatives 0 .. p-1, as the field helpers
    of `src/p256_fixed.cpp`, `src/p256.cpp` and `src/ed25519.cpp` compute it. */
module PrimeField {
  import opened NumberTheory

  function FAdd(p: int, a: int, b: int): (r: int)
    requires p > 0
    ensures 0 <= r < p
  {
    (a + b) % p
  }

  function FSub(p: int, a: int, b: int): (r: int)
    requires p > 0
    ensures 0 <= r < p
  {
    (a - b) % p
  }

  function FMul(p: int, a: int, b: int): (r: int)
    requires p > 0
    ensures 0 <= r < p
  {
    (a * b) % p
  }

  /** `field_inverse`: the power p - 2. */
  function FInv(p: int, a: int): (r: int)
    requires p > 1
    ensures 0 <= r < p
  {
    Pow(a, p - 2) % p
  }

  predicate InField(p: int, a: int) {
    0 <= a < p
  }

  // ----- each operation, up to congruence of its arguments -----

  lemma FAddCong(p: int, a: int, a': int, b: int, b': int)
    requires p > 0 && Cong(a, a', p) && Cong(b, b', p)
    ensures Cong(FAdd(p, a, b), a' + b', p)
  {
    CongAdd(a, a', b, b', p);
    CongMod(a + b, p);
  }

  lemma FSubCong(p: int, a: int, a': int, b: int, b': int)
    requires p > 0 && Cong(a, a', p) && Cong(b, b', p)
    ensures Cong(FSub(p, a, b), a' - b', p)
  {
    CongSub(a, a', b, b', p);
    CongMod(a - b, p);
  }

  lemma FMulCong(p: int, a: int, a': int, b: int, b': int)
    requires p > 0 && Cong(a, a', p) && Cong(b, b', p)
    ensures Cong(FMul(p, a, b), a' * b', p)
  {
    CongMul(a, a', b, b', p);
    CongMod(a * b, p);
  }

  /** A residue is zero exactly when p divides the integer it is congruent to. */
  lemma FZero(p: int, a: int, a': int)
    requires InField(p, a) && Cong(a, a', p)
    ensures a == 0 <==> a' % p == 0
  {
    ModSmall(a, p);
  }

  lemma FUnique(p: int, a: int, b: int)
    requires InField(p, a) && InField(p, b) && Cong(a, b, p)
    ensures a == b
  {
    CongUnique(a, b, p);
  }

  lemma NonzeroInField(p: int, a: int)
    requires InField(p, a)
    ensures a % p != 0 <==> a != 0
  {
    ModSmall(a, p);
  }

  /** Inverses: the Fermat power is the multiplicative inverse of every nonzero residue. */
  lemma FInvCorrect(p: int, a: int)
    requires IsPrime(p) && a % p != 0
    ensures Cong(a * FInv(p, a), 1, p)
  {
    FermatInverse(p, a);
    CongMod(Pow(a, p - 2), p);
    CongMul(a, a, FInv(p, a), Pow(a, p - 2), p);
  }

  /** Division: `FMul(num, FInv(den))` is the solution of x * den = num. */
  lemma FDivCorrect(p: int, num: int, den: int)
    requires IsPrime(p) && den % p != 0
    ensures Cong(FMul(p, num, FInv(p, den)) * den, num, p)
  {
    var i := FInv(p, den);
    FInvCorrect(p, den);
    CongMod(num * i, p);
    CongMul(FMul(p, num, i), num * i, den, den, p);
    assert (num * i) * den == num * (den * i);
    CongMul(num, num, den * i, 1, p);
  }

  lemma NonzeroProduct(p: int, a: int, b: int)
    requires IsPrime(p)
    ensures (a * b) % p != 0 <==> a % p != 0 && b % p != 0
  {
    if (a * b) % p == 0 {
      PrimeDividesProduct(p, a, b);
    }
    ModSmall(0, p);
    if a % p == 0 {
      CongMul(a, 0, b, b, p);
    }
    if b % p == 0 {
      CongMul(a, a, b, 0, p);
    }
  }

  lemma CongNonzero(p: int, a: int, b: int)
    requires p > 0 && Cong(a, b, p)
    ensures a % p != 0 <==> b % p != 0
  {
  }
}
