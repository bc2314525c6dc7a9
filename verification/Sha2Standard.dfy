/** The functions, constants and initial words of both hashes as FIPS 180-4 defines them (sections 4.1, 4.2 and
    5.3): rotations and choices bit by bit, constants as fractional parts of roots of primes. */
module Sha2Standard {
  import opened NumberTheory
  import opened Sha2Spec
  import opened Sha2Rounds

  // ----- the functions of SHA-256, bit by bit -----

  /** Ch takes the bits of y where x has ones and those of z where it has zeros. */
  lemma ChChooses32(x: bv32, y: bv32, z: bv32)
    ensures Ch32(x, y, z) & x == y & x && Ch32(x, y, z) & !x == z & !x
  {
  }

  /** Maj takes the bits of x where x and y agree and those of z where they do not. */
  lemma MajAgrees32(x: bv32, y: bv32, z: bv32)
    ensures Maj32(x, y, z) & !(x ^ y) == x & !(x ^ y) && Maj32(x, y, z) & (x ^ y) == z & (x ^ y)
  {
  }

  /** Bit j of a rotation by n is bit j + n modulo 32 (section 4.1.2 of FIPS 180-4). */
  lemma BigSigma0Of256Bit(x: bv32, j: bv32)
    requires j < 32
    ensures ((BigSigma0Of256(x) >> j) & 1 == 1)
         == ((((x >> ((j + 2) & 31)) & 1 == 1) != ((x >> ((j + 13) & 31)) & 1 == 1)) != ((x >> ((j + 22) & 31)) & 1 == 1))
  {
    BigSigma0Shifts256(x, j);
  }

  lemma BigSigma0Shifts256(x: bv32, j: bv32)
    requires j < 32
    ensures ((((((x >> 2) | (x << 30)) ^ ((x >> 13) | (x << 19))) ^ ((x >> 22) | (x << 10))) >> j) & 1 == 1)
         == ((((x >> ((j + 2) & 31)) & 1 == 1) != ((x >> ((j + 13) & 31)) & 1 == 1)) != ((x >> ((j + 22) & 31)) & 1 == 1))
  {
  }

  lemma BigSigma1Of256Bit(x: bv32, j: bv32)
    requires j < 32
    ensures ((BigSigma1Of256(x) >> j) & 1 == 1)
         == ((((x >> ((j + 6) & 31)) & 1 == 1) != ((x >> ((j + 11) & 31)) & 1 == 1)) != ((x >> ((j + 25) & 31)) & 1 == 1))
  {
    BigSigma1Shifts256(x, j);
  }

  lemma BigSigma1Shifts256(x: bv32, j: bv32)
    requires j < 32
    ensures ((((((x >> 6) | (x << 26)) ^ ((x >> 11) | (x << 21))) ^ ((x >> 25) | (x << 7))) >> j) & 1 == 1)
         == ((((x >> ((j + 6) & 31)) & 1 == 1) != ((x >> ((j + 11) & 31)) & 1 == 1)) != ((x >> ((j + 25) & 31)) & 1 == 1))
  {
  }

  lemma SmallSigma0Of256Bit(x: bv32, j: bv32)
    requires j < 32
    ensures ((SmallSigma0Of256(x) >> j) & 1 == 1)
         == ((((x >> ((j + 7) & 31)) & 1 == 1) != ((x >> ((j + 18) & 31)) & 1 == 1)) != (j < 29 && (x >> ((j + 3) & 31)) & 1 == 1))
  {
    SmallSigma0Shifts256(x, j);
  }

  lemma SmallSigma0Shifts256(x: bv32, j: bv32)
    requires j < 32
    ensures ((((((x >> 7) | (x << 25)) ^ ((x >> 18) | (x << 14))) ^ (x >> 3)) >> j) & 1 == 1)
         == ((((x >> ((j + 7) & 31)) & 1 == 1) != ((x >> ((j + 18) & 31)) & 1 == 1)) != (j < 29 && (x >> ((j + 3) & 31)) & 1 == 1))
  {
  }

  lemma SmallSigma1Of256Bit(x: bv32, j: bv32)
    requires j < 32
    ensures ((SmallSigma1Of256(x) >> j) & 1 == 1)
         == ((((x >> ((j + 17) & 31)) & 1 == 1) != ((x >> ((j + 19) & 31)) & 1 == 1)) != (j < 22 && (x >> ((j + 10) & 31)) & 1 == 1))
  {
    SmallSigma1Shifts256(x, j);
  }

  lemma SmallSigma1Shifts256(x: bv32, j: bv32)
    requires j < 32
    ensures ((((((x >> 17) | (x << 15)) ^ ((x >> 19) | (x << 13))) ^ (x >> 10)) >> j) & 1 == 1)
         == ((((x >> ((j + 17) & 31)) & 1 == 1) != ((x >> ((j + 19) & 31)) & 1 == 1)) != (j < 22 && (x >> ((j + 10) & 31)) & 1 == 1))
  {
  }

  // ----- the functions of SHA-512, bit by bit -----

  /** Ch takes the bits of y where x has ones and those of z where it has zeros. */
  lemma ChChooses64(x: bv64, y: bv64, z: bv64)
    ensures Ch64(x, y, z) & x == y & x && Ch64(x, y, z) & !x == z & !x
  {
  }

  /** Maj takes the bits of x where x and y agree and those of z where they do not. */
  lemma MajAgrees64(x: bv64, y: bv64, z: bv64)
    ensures Maj64(x, y, z) & !(x ^ y) == x & !(x ^ y) && Maj64(x, y, z) & (x ^ y) == z & (x ^ y)
  {
  }

  /** Bit j of a rotation by n is bit j + n modulo 64 (section 4.1.3 of FIPS 180-4). */
  lemma BigSigma0Of512Bit(x: bv64, j: bv64)
    requires j < 64
    ensures ((BigSigma0Of512(x) >> j) & 1 == 1)
         == ((((x >> ((j + 28) & 63)) & 1 == 1) != ((x >> ((j + 34) & 63)) & 1 == 1)) != ((x >> ((j + 39) & 63)) & 1 == 1))
  {
    BigSigma0Shifts512(x, j);
  }

  lemma BigSigma0Shifts512(x: bv64, j: bv64)
    requires j < 64
    ensures ((((((x >> 28) | (x << 36)) ^ ((x >> 34) | (x << 30))) ^ ((x >> 39) | (x << 25))) >> j) & 1 == 1)
         == ((((x >> ((j + 28) & 63)) & 1 == 1) != ((x >> ((j + 34) & 63)) & 1 == 1)) != ((x >> ((j + 39) & 63)) & 1 == 1))
  {
  }

  lemma BigSigma1Of512Bit(x: bv64, j: bv64)
    requires j < 64
    ensures ((BigSigma1Of512(x) >> j) & 1 == 1)
         == ((((x >> ((j + 14) & 63)) & 1 == 1) != ((x >> ((j + 18) & 63)) & 1 == 1)) != ((x >> ((j + 41) & 63)) & 1 == 1))
  {
    BigSigma1Shifts512(x, j);
  }

  lemma BigSigma1Shifts512(x: bv64, j: bv64)
    requires j < 64
    ensures ((((((x >> 14) | (x << 50)) ^ ((x >> 18) | (x << 46))) ^ ((x >> 41) | (x << 23))) >> j) & 1 == 1)
         == ((((x >> ((j + 14) & 63)) & 1 == 1) != ((x >> ((j + 18) & 63)) & 1 == 1)) != ((x >> ((j + 41) & 63)) & 1 == 1))
  {
  }

  lemma SmallSigma0Of512Bit(x: bv64, j: bv64)
    requires j < 64
    ensures ((SmallSigma0Of512(x) >> j) & 1 == 1)
         == ((((x >> ((j + 1) & 63)) & 1 == 1) != ((x >> ((j + 8) & 63)) & 1 == 1)) != (j < 57 && (x >> ((j + 7) & 63)) & 1 == 1))
  {
    SmallSigma0Shifts512(x, j);
  }

  lemma SmallSigma0Shifts512(x: bv64, j: bv64)
    requires j < 64
    ensures ((((((x >> 1) | (x << 63)) ^ ((x >> 8) | (x << 56))) ^ (x >> 7)) >> j) & 1 == 1)
         == ((((x >> ((j + 1) & 63)) & 1 == 1) != ((x >> ((j + 8) & 63)) & 1 == 1)) != (j < 57 && (x >> ((j + 7) & 63)) & 1 == 1))
  {
  }

  lemma SmallSigma1Of512Bit(x: bv64, j: bv64)
    requires j < 64
    ensures ((SmallSigma1Of512(x) >> j) & 1 == 1)
         == ((((x >> ((j + 19) & 63)) & 1 == 1) != ((x >> ((j + 61) & 63)) & 1 == 1)) != (j < 58 && (x >> ((j + 6) & 63)) & 1 == 1))
  {
    SmallSigma1Shifts512(x, j);
  }

  lemma SmallSigma1Shifts512(x: bv64, j: bv64)
    requires j < 64
    ensures ((((((x >> 19) | (x << 45)) ^ ((x >> 61) | (x << 3))) ^ (x >> 6)) >> j) & 1 == 1)
         == ((((x >> ((j + 19) & 63)) & 1 == 1) != ((x >> ((j + 61) & 63)) & 1 == 1)) != (j < 58 && (x >> ((j + 6) & 63)) & 1 == 1))
  {
  }

  // ----- the first eighty primes -----

  function Prime(i: nat): nat
    requires i < 80
  {
    if i < 8 then Of8(i, 2, 3, 5, 7, 11, 13, 17, 19)
    else if i < 16 then Of8(i - 8, 23, 29, 31, 37, 41, 43, 47, 53)
    else if i < 24 then Of8(i - 16, 59, 61, 67, 71, 73, 79, 83, 89)
    else if i < 32 then Of8(i - 24, 97, 101, 103, 107, 109, 113, 127, 131)
    else if i < 40 then Of8(i - 32, 137, 139, 149, 151, 157, 163, 167, 173)
    else if i < 48 then Of8(i - 40, 179, 181, 191, 193, 197, 199, 211, 223)
    else if i < 56 then Of8(i - 48, 227, 229, 233, 239, 241, 251, 257, 263)
    else if i < 64 then Of8(i - 56, 269, 271, 277, 281, 283, 293, 307, 311)
    else if i < 72 then Of8(i - 64, 313, 317, 331, 337, 347, 349, 353, 359)
    else Of8(i - 72, 367, 373, 379, 383, 389, 397, 401, 409)
  }

  /** Composite, by a factor below 23. */
  predicate HasSmallFactor(n: nat) {
    (n > 2 && n % 2 == 0) || (n > 3 && n % 3 == 0) || (n > 5 && n % 5 == 0) || (n > 7 && n % 7 == 0)
    || (n > 11 && n % 11 == 0) || (n > 13 && n % 13 == 0) || (n > 17 && n % 17 == 0) || (n > 19 && n % 19 == 0)
  }

  lemma SmallFactorNotPrime(n: nat)
    requires HasSmallFactor(n)
    ensures !IsPrime(n)
  {
    assert n > 2 && n % 2 == 0 ==> Divides(2, n);
    assert n > 3 && n % 3 == 0 ==> Divides(3, n);
    assert n > 5 && n % 5 == 0 ==> Divides(5, n);
    assert n > 7 && n % 7 == 0 ==> Divides(7, n);
    assert n > 11 && n % 11 == 0 ==> Divides(11, n);
    assert n > 13 && n % 13 == 0 ==> Divides(13, n);
    assert n > 17 && n % 17 == 0 ==> Divides(17, n);
    assert n > 19 && n % 19 == 0 ==> Divides(19, n);
  }

  /** Below 23 * 23 the eight primes up to 19 decide. */
  lemma NoSmallFactorPrime(n: nat)
    requires 2 <= n < 529 && !HasSmallFactor(n)
    ensures IsPrime(n)
  {
    hide HasSmallFactor;
    forall d | 2 <= d < n
      ensures !Divides(d, n)
    {
      if Divides(d, n) {
        var e := n / d;
        assert n == d * e;
        if d < 23 {
          DivisorIsSmall(n, d, e);
        } else {
          CofactorIsSmall(n, d, e);
          DivisorIsSmall(n, e, d);
        }
      }
    }
  }

  lemma CofactorIsSmall(n: nat, d: nat, e: nat)
    requires 23 <= d < n < 529 && n == d * e
    ensures 2 <= e < 23 && e < n
  {
    if e >= 23 {
      MulBound(23, d, 23, e);
    }
  }

  lemma DivisorIsSmall(n: nat, d: nat, e: nat)
    requires 2 <= d < 23 && d < n && n == d * e
    ensures HasSmallFactor(n)
  {
    if d % 2 == 0 {
      FactorOf(n, d, e, 2);
    } else if d % 3 == 0 {
      FactorOf(n, d, e, 3);
    } else if d % 5 == 0 {
      FactorOf(n, d, e, 5);
    } else if d % 7 == 0 {
      FactorOf(n, d, e, 7);
    } else {
      assert d == 11 || d == 13 || d == 17 || d == 19;
      FactorOf(n, d, e, d);
    }
  }

  lemma FactorOf(n: nat, d: nat, e: nat, f: nat)
    requires 0 < f <= d < n && d % f == 0 && n == d * e
    ensures n > f && n % f == 0
  {
    var g := d / f;
    assert d == f * g;
    assert n == (g * e) * f;
    ModMultiple(g * e, f);
  }

  /** The numbers strictly between p and q have small factors. */
  predicate CompositeBetween(p: nat, q: nat)
    decreases q - p
  {
    p + 1 >= q || (HasSmallFactor(p + 1) && CompositeBetween(p + 1, q))
  }

  lemma {:induction false} BetweenIsComposite(p: nat, q: nat, n: nat)
    requires CompositeBetween(p, q) && p < n < q
    ensures HasSmallFactor(n)
    decreases n - p
  {
    if n > p + 1 {
      BetweenIsComposite(p + 1, q, n);
    }
  }

  predicate NextPrime(p: nat, q: nat) {
    p < q < 529 && !HasSmallFactor(q) && CompositeBetween(p, q)
  }

  /** The list is that of all primes up to 409, in order. */
  lemma PrimesInOrder(i: nat)
    requires i < 80
    ensures Prime(0) == 2 && IsPrime(Prime(i))
    ensures i < 79 ==> Prime(i) < Prime(i + 1) && forall n :: Prime(i) < n < Prime(i + 1) ==> !IsPrime(n)
  {
    PrimeCount();
    Neighbours(i);
    hide *;
    if i == 0 {
      IsTwoPrime();
    }
    if i > 0 {
      Neighbours(i - 1);
      NeighbourIsPrime(Prime(i - 1), Prime(i));
    }
    if i < 79 {
      NeighbourIsPrime(Prime(i), Prime(i + 1));
    }
  }

  lemma PrimeCount()
    ensures Prime(0) == 2
  {
  }

  lemma IsTwoPrime()
    ensures IsPrime(2)
  {
  }

  lemma NeighbourIsPrime(p: nat, q: nat)
    requires NextPrime(p, q) && p >= 2
    ensures p < q && IsPrime(q) && forall n :: p < n < q ==> !IsPrime(n)
  {
    NoSmallFactorPrime(q);
    forall n | p < n < q
      ensures !IsPrime(n)
    {
      BetweenIsComposite(p, q, n);
      SmallFactorNotPrime(n);
    }
  }

  predicate Neighboured(i: nat)
    requires i < 80
  {
    Prime(i) >= 2 && (i < 79 ==> NextPrime(Prime(i), Prime(i + 1)))
  }

  lemma Neighbours(i: nat)
    requires i < 80
    ensures Neighboured(i)
    ensures Prime(i) >= 2 && (i < 79 ==> NextPrime(Prime(i), Prime(i + 1)))
  {
    hide Neighboured;
    if i < 8 {
      FirstPrimes(i);
    } else if i < 16 {
      SecondPrimes(i);
    } else if i < 24 {
      ThirdPrimes(i);
    } else if i < 32 {
      FourthPrimes(i);
    } else if i < 40 {
      FifthPrimes(i);
    } else if i < 48 {
      SixthPrimes(i);
    } else if i < 56 {
      SeventhPrimes(i);
    } else if i < 64 {
      EighthPrimes(i);
    } else if i < 72 {
      NinthPrimes(i);
    } else {
      TenthPrimes(i);
    }
    UseNeighboured(i);
  }

  lemma UseNeighboured(i: nat)
    requires i < 80 && Neighboured(i)
    ensures Prime(i) >= 2 && (i < 79 ==> NextPrime(Prime(i), Prime(i + 1)))
  {
    hide Prime;
    hide NextPrime;
  }

  lemma FirstPrimes(i: nat)
    requires 0 <= i < 8
    ensures Neighboured(i)
  {
    match i
    case 0 => assert NextPrime(2, 3);
    case 1 => assert NextPrime(3, 5);
    case 2 => assert NextPrime(5, 7);
    case 3 => assert NextPrime(7, 11);
    case 4 => assert NextPrime(11, 13);
    case 5 => assert NextPrime(13, 17);
    case 6 => assert NextPrime(17, 19);
    case _ => assert NextPrime(19, 23);
  }

  lemma SecondPrimes(i: nat)
    requires 8 <= i < 16
    ensures Neighboured(i)
  {
    match i
    case 8 => assert NextPrime(23, 29);
    case 9 => assert NextPrime(29, 31);
    case 10 => assert NextPrime(31, 37);
    case 11 => assert NextPrime(37, 41);
    case 12 => assert NextPrime(41, 43);
    case 13 => assert NextPrime(43, 47);
    case 14 => assert NextPrime(47, 53);
    case _ => assert NextPrime(53, 59);
  }

  lemma ThirdPrimes(i: nat)
    requires 16 <= i < 24
    ensures Neighboured(i)
  {
    match i
    case 16 => assert NextPrime(59, 61);
    case 17 => assert NextPrime(61, 67);
    case 18 => assert NextPrime(67, 71);
    case 19 => assert NextPrime(71, 73);
    case 20 => assert NextPrime(73, 79);
    case 21 => assert NextPrime(79, 83);
    case 22 => assert NextPrime(83, 89);
    case _ => assert NextPrime(89, 97);
  }

  lemma FourthPrimes(i: nat)
    requires 24 <= i < 32
    ensures Neighboured(i)
  {
    match i
    case 24 => assert NextPrime(97, 101);
    case 25 => assert NextPrime(101, 103);
    case 26 => assert NextPrime(103, 107);
    case 27 => assert NextPrime(107, 109);
    case 28 => assert NextPrime(109, 113);
    case 29 => assert NextPrime(113, 127);
    case 30 => assert NextPrime(127, 131);
    case _ => assert NextPrime(131, 137);
  }

  lemma FifthPrimes(i: nat)
    requires 32 <= i < 40
    ensures Neighboured(i)
  {
    match i
    case 32 => assert NextPrime(137, 139);
    case 33 => assert NextPrime(139, 149);
    case 34 => assert NextPrime(149, 151);
    case 35 => assert NextPrime(151, 157);
    case 36 => assert NextPrime(157, 163);
    case 37 => assert NextPrime(163, 167);
    case 38 => assert NextPrime(167, 173);
    case _ => assert NextPrime(173, 179);
  }

  lemma SixthPrimes(i: nat)
    requires 40 <= i < 48
    ensures Neighboured(i)
  {
    match i
    case 40 => assert NextPrime(179, 181);
    case 41 => assert NextPrime(181, 191);
    case 42 => assert NextPrime(191, 193);
    case 43 => assert NextPrime(193, 197);
    case 44 => assert NextPrime(197, 199);
    case 45 => assert NextPrime(199, 211);
    case 46 => assert NextPrime(211, 223);
    case _ => assert NextPrime(223, 227);
  }

  lemma SeventhPrimes(i: nat)
    requires 48 <= i < 56
    ensures Neighboured(i)
  {
    match i
    case 48 => assert NextPrime(227, 229);
    case 49 => assert NextPrime(229, 233);
    case 50 => assert NextPrime(233, 239);
    case 51 => assert NextPrime(239, 241);
    case 52 => assert NextPrime(241, 251);
    case 53 => assert NextPrime(251, 257);
    case 54 => assert NextPrime(257, 263);
    case _ => assert NextPrime(263, 269);
  }

  lemma EighthPrimes(i: nat)
    requires 56 <= i < 64
    ensures Neighboured(i)
  {
    match i
    case 56 => assert NextPrime(269, 271);
    case 57 => assert NextPrime(271, 277);
    case 58 => assert NextPrime(277, 281);
    case 59 => assert NextPrime(281, 283);
    case 60 => assert NextPrime(283, 293);
    case 61 => assert NextPrime(293, 307);
    case 62 => assert NextPrime(307, 311);
    case _ => assert NextPrime(311, 313);
  }

  lemma NinthPrimes(i: nat)
    requires 64 <= i < 72
    ensures Neighboured(i)
  {
    match i
    case 64 => assert NextPrime(313, 317);
    case 65 => assert NextPrime(317, 331);
    case 66 => assert NextPrime(331, 337);
    case 67 => assert NextPrime(337, 347);
    case 68 => assert NextPrime(347, 349);
    case 69 => assert NextPrime(349, 353);
    case 70 => assert NextPrime(353, 359);
    case _ => assert NextPrime(359, 367);
  }

  lemma TenthPrimes(i: nat)
    requires 72 <= i < 80
    ensures Neighboured(i)
  {
    match i
    case 72 => assert NextPrime(367, 373);
    case 73 => assert NextPrime(373, 379);
    case 74 => assert NextPrime(379, 383);
    case 75 => assert NextPrime(383, 389);
    case 76 => assert NextPrime(389, 397);
    case 77 => assert NextPrime(397, 401);
    case 78 => assert NextPrime(401, 409);
    case _ =>
  }

  // ----- the constants of SHA-256 -----

  /** n is the cube root of prime number i, 32 bits behind the point, and its fraction is the constant. */
  ghost predicate CubeRoot256(i: nat, n: nat)
    requires i < 64
  {
    n * n * n <= Prime(i) * 0x1000000000000000000000000 < (n + 1) * (n + 1) * (n + 1)
    && K256(i) as int == n % 0x100000000
  }

  lemma FirstRoots256(i: nat) returns (n: nat)
    requires 0 <= i < 8
    ensures CubeRoot256(i, n)
  {
    match i
    case 0 => n := 0x1428a2f98;
    case 1 => n := 0x171374491;
    case 2 => n := 0x1b5c0fbcf;
    case 3 => n := 0x1e9b5dba5;
    case 4 => n := 0x23956c25b;
    case 5 => n := 0x259f111f1;
    case 6 => n := 0x2923f82a4;
    case _ => n := 0x2ab1c5ed5;
  }

  lemma SecondRoots256(i: nat) returns (n: nat)
    requires 8 <= i < 16
    ensures CubeRoot256(i, n)
  {
    match i
    case 8 => n := 0x2d807aa98;
    case 9 => n := 0x312835b01;
    case 10 => n := 0x3243185be;
    case 11 => n := 0x3550c7dc3;
    case 12 => n := 0x372be5d74;
    case 13 => n := 0x380deb1fe;
    case 14 => n := 0x39bdc06a7;
    case _ => n := 0x3c19bf174;
  }

  lemma ThirdRoots256(i: nat) returns (n: nat)
    requires 16 <= i < 24
    ensures CubeRoot256(i, n)
  {
    match i
    case 16 => n := 0x3e49b69c1;
    case 17 => n := 0x3efbe4786;
    case 18 => n := 0x40fc19dc6;
    case 19 => n := 0x4240ca1cc;
    case 20 => n := 0x42de92c6f;
    case 21 => n := 0x44a7484aa;
    case 22 => n := 0x45cb0a9dc;
    case _ => n := 0x476f988da;
  }

  lemma FourthRoots256(i: nat) returns (n: nat)
    requires 24 <= i < 32
    ensures CubeRoot256(i, n)
  {
    match i
    case 24 => n := 0x4983e5152;
    case 25 => n := 0x4a831c66d;
    case 26 => n := 0x4b00327c8;
    case 27 => n := 0x4bf597fc7;
    case 28 => n := 0x4c6e00bf3;
    case 29 => n := 0x4d5a79147;
    case 30 => n := 0x506ca6351;
    case _ => n := 0x514292967;
  }

  lemma FifthRoots256(i: nat) returns (n: nat)
    requires 32 <= i < 40
    ensures CubeRoot256(i, n)
  {
    match i
    case 32 => n := 0x527b70a85;
    case 33 => n := 0x52e1b2138;
    case 34 => n := 0x54d2c6dfc;
    case 35 => n := 0x553380d13;
    case 36 => n := 0x5650a7354;
    case 37 => n := 0x5766a0abb;
    case 38 => n := 0x581c2c92e;
    case _ => n := 0x592722c85;
  }

  lemma SixthRoots256(i: nat) returns (n: nat)
    requires 40 <= i < 48
    ensures CubeRoot256(i, n)
  {
    match i
    case 40 => n := 0x5a2bfe8a1;
    case 41 => n := 0x5a81a664b;
    case 42 => n := 0x5c24b8b70;
    case 43 => n := 0x5c76c51a3;
    case 44 => n := 0x5d192e819;
    case 45 => n := 0x5d6990624;
    case 46 => n := 0x5f40e3585;
    case _ => n := 0x6106aa070;
  }

  lemma SeventhRoots256(i: nat) returns (n: nat)
    requires 48 <= i < 56
    ensures CubeRoot256(i, n)
  {
    match i
    case 48 => n := 0x619a4c116;
    case 49 => n := 0x61e376c08;
    case 50 => n := 0x62748774c;
    case 51 => n := 0x634b0bcb5;
    case 52 => n := 0x6391c0cb3;
    case 53 => n := 0x64ed8aa4a;
    case 54 => n := 0x65b9cca4f;
    case _ => n := 0x6682e6ff3;
  }

  lemma EighthRoots256(i: nat) returns (n: nat)
    requires 56 <= i < 64
    ensures CubeRoot256(i, n)
  {
    match i
    case 56 => n := 0x6748f82ee;
    case 57 => n := 0x678a5636f;
    case 58 => n := 0x684c87814;
    case 59 => n := 0x68cc70208;
    case 60 => n := 0x690befffa;
    case 61 => n := 0x6a4506ceb;
    case 62 => n := 0x6bef9a3f7;
    case _ => n := 0x6c67178f2;
  }

  /** Section 4.2.2 of FIPS 180-4: the first 32 bits of the fractional parts of the cube roots of the first
      64 primes. */
  lemma K256IsCubeRoot(i: nat) returns (n: nat)
    requires i < 64
    ensures n * n * n <= Prime(i) * 0x1000000000000000000000000 < (n + 1) * (n + 1) * (n + 1)
    ensures K256(i) as int == n % 0x100000000
  {
    hide *;
    if i < 8 {
      n := FirstRoots256(i);
    } else if i < 16 {
      n := SecondRoots256(i);
    } else if i < 24 {
      n := ThirdRoots256(i);
    } else if i < 32 {
      n := FourthRoots256(i);
    } else if i < 40 {
      n := FifthRoots256(i);
    } else if i < 48 {
      n := SixthRoots256(i);
    } else if i < 56 {
      n := SeventhRoots256(i);
    } else {
      n := EighthRoots256(i);
    }
    UseRoot256(i, n);
  }

  lemma UseRoot256(i: nat, n: nat)
    requires i < 64 && CubeRoot256(i, n)
    ensures n * n * n <= Prime(i) * 0x1000000000000000000000000 < (n + 1) * (n + 1) * (n + 1)
    ensures K256(i) as int == n % 0x100000000
  {
    hide Prime;
    hide K256;
  }

  /** Section 5.3.3: the initial words are the fractions of the square roots of the first eight primes. */
  lemma Initial256IsSquareRoot(i: nat) returns (n: nat)
    requires i < 8
    ensures n * n <= Prime(i) * 0x10000000000000000 < (n + 1) * (n + 1)
    ensures SHA256_INITIAL[i] == n % 0x100000000
  {
    hide SquareRoot256;
    SquareRoots256();
    n :| SquareRoot256(i, n);
    UseSquareRoot256(i, n);
  }

  ghost predicate SquareRoot256(i: nat, n: nat)
    requires i < 8
  {
    n * n <= Prime(i) * 0x10000000000000000 < (n + 1) * (n + 1) && SHA256_INITIAL[i] == n % 0x100000000
  }

  lemma SquareRoots256()
    ensures SquareRoot256(0, 0x16a09e667)
    ensures SquareRoot256(1, 0x1bb67ae85)
    ensures SquareRoot256(2, 0x23c6ef372)
    ensures SquareRoot256(3, 0x2a54ff53a)
    ensures SquareRoot256(4, 0x3510e527f)
    ensures SquareRoot256(5, 0x39b05688c)
    ensures SquareRoot256(6, 0x41f83d9ab)
    ensures SquareRoot256(7, 0x45be0cd19)
  {
  }

  lemma UseSquareRoot256(i: nat, n: nat)
    requires i < 8 && SquareRoot256(i, n)
    ensures n * n <= Prime(i) * 0x10000000000000000 < (n + 1) * (n + 1)
    ensures SHA256_INITIAL[i] == n % 0x100000000
  {
    hide Prime;
    hide SHA256_INITIAL;
  }

  // ----- the constants of SHA-512 -----

  /** n is the cube root of prime number i, 64 bits behind the point, and its fraction is the constant. */
  ghost predicate CubeRoot512(i: nat, n: nat)
    requires i < 80
  {
    n * n * n <= Prime(i) * 0x1000000000000000000000000000000000000000000000000 < (n + 1) * (n + 1) * (n + 1)
    && K512(i) as int == n % 0x10000000000000000
  }

  lemma FirstRoots512(i: nat) returns (n: nat)
    requires 0 <= i < 8
    ensures CubeRoot512(i, n)
  {
    match i
    case 0 => n := 0x1428a2f98d728ae22;
    case 1 => n := 0x17137449123ef65cd;
    case 2 => n := 0x1b5c0fbcfec4d3b2f;
    case 3 => n := 0x1e9b5dba58189dbbc;
    case 4 => n := 0x23956c25bf348b538;
    case 5 => n := 0x259f111f1b605d019;
    case 6 => n := 0x2923f82a4af194f9b;
    case _ => n := 0x2ab1c5ed5da6d8118;
  }

  lemma SecondRoots512(i: nat) returns (n: nat)
    requires 8 <= i < 16
    ensures CubeRoot512(i, n)
  {
    match i
    case 8 => n := 0x2d807aa98a3030242;
    case 9 => n := 0x312835b0145706fbe;
    case 10 => n := 0x3243185be4ee4b28c;
    case 11 => n := 0x3550c7dc3d5ffb4e2;
    case 12 => n := 0x372be5d74f27b896f;
    case 13 => n := 0x380deb1fe3b1696b1;
    case 14 => n := 0x39bdc06a725c71235;
    case _ => n := 0x3c19bf174cf692694;
  }

  lemma ThirdRoots512(i: nat) returns (n: nat)
    requires 16 <= i < 24
    ensures CubeRoot512(i, n)
  {
    match i
    case 16 => n := 0x3e49b69c19ef14ad2;
    case 17 => n := 0x3efbe4786384f25e3;
    case 18 => n := 0x40fc19dc68b8cd5b5;
    case 19 => n := 0x4240ca1cc77ac9c65;
    case 20 => n := 0x42de92c6f592b0275;
    case 21 => n := 0x44a7484aa6ea6e483;
    case 22 => n := 0x45cb0a9dcbd41fbd4;
    case _ => n := 0x476f988da831153b5;
  }

  lemma FourthRoots512(i: nat) returns (n: nat)
    requires 24 <= i < 32
    ensures CubeRoot512(i, n)
  {
    match i
    case 24 => n := 0x4983e5152ee66dfab;
    case 25 => n := 0x4a831c66d2db43210;
    case 26 => n := 0x4b00327c898fb213f;
    case 27 => n := 0x4bf597fc7beef0ee4;
    case 28 => n := 0x4c6e00bf33da88fc2;
    case 29 => n := 0x4d5a79147930aa725;
    case 30 => n := 0x506ca6351e003826f;
    case _ => n := 0x5142929670a0e6e70;
  }

  lemma FifthRoots512(i: nat) returns (n: nat)
    requires 32 <= i < 40
    ensures CubeRoot512(i, n)
  {
    match i
    case 32 => n := 0x527b70a8546d22ffc;
    case 33 => n := 0x52e1b21385c26c926;
    case 34 => n := 0x54d2c6dfc5ac42aed;
    case 35 => n := 0x553380d139d95b3df;
    case 36 => n := 0x5650a73548baf63de;
    case 37 => n := 0x5766a0abb3c77b2a8;
    case 38 => n := 0x581c2c92e47edaee6;
    case _ => n := 0x592722c851482353b;
  }

  lemma SixthRoots512(i: nat) returns (n: nat)
    requires 40 <= i < 48
    ensures CubeRoot512(i, n)
  {
    match i
    case 40 => n := 0x5a2bfe8a14cf10364;
    case 41 => n := 0x5a81a664bbc423001;
    case 42 => n := 0x5c24b8b70d0f89791;
    case 43 => n := 0x5c76c51a30654be30;
    case 44 => n := 0x5d192e819d6ef5218;
    case 45 => n := 0x5d69906245565a910;
    case 46 => n := 0x5f40e35855771202a;
    case _ => n := 0x6106aa07032bbd1b8;
  }

  lemma SeventhRoots512(i: nat) returns (n: nat)
    requires 48 <= i < 56
    ensures CubeRoot512(i, n)
  {
    match i
    case 48 => n := 0x619a4c116b8d2d0c8;
    case 49 => n := 0x61e376c085141ab53;
    case 50 => n := 0x62748774cdf8eeb99;
    case 51 => n := 0x634b0bcb5e19b48a8;
    case 52 => n := 0x6391c0cb3c5c95a63;
    case 53 => n := 0x64ed8aa4ae3418acb;
    case 54 => n := 0x65b9cca4f7763e373;
    case _ => n := 0x6682e6ff3d6b2b8a3;
  }

  lemma EighthRoots512(i: nat) returns (n: nat)
    requires 56 <= i < 64
    ensures CubeRoot512(i, n)
  {
    match i
    case 56 => n := 0x6748f82ee5defb2fc;
    case 57 => n := 0x678a5636f43172f60;
    case 58 => n := 0x684c87814a1f0ab72;
    case 59 => n := 0x68cc702081a6439ec;
    case 60 => n := 0x690befffa23631e28;
    case 61 => n := 0x6a4506cebde82bde9;
    case 62 => n := 0x6bef9a3f7b2c67915;
    case _ => n := 0x6c67178f2e372532b;
  }

  lemma NinthRoots512(i: nat) returns (n: nat)
    requires 64 <= i < 72
    ensures CubeRoot512(i, n)
  {
    match i
    case 64 => n := 0x6ca273eceea26619c;
    case 65 => n := 0x6d186b8c721c0c207;
    case 66 => n := 0x6eada7dd6cde0eb1e;
    case 67 => n := 0x6f57d4f7fee6ed178;
    case 68 => n := 0x706f067aa72176fba;
    case 69 => n := 0x70a637dc5a2c898a6;
    case 70 => n := 0x7113f9804bef90dae;
    case _ => n := 0x71b710b35131c471b;
  }

  lemma TenthRoots512(i: nat) returns (n: nat)
    requires 72 <= i < 80
    ensures CubeRoot512(i, n)
  {
    match i
    case 72 => n := 0x728db77f523047d84;
    case 73 => n := 0x732caab7b40c72493;
    case 74 => n := 0x73c9ebe0a15c9bebc;
    case 75 => n := 0x7431d67c49c100d4c;
    case 76 => n := 0x74cc5d4becb3e42b6;
    case 77 => n := 0x7597f299cfc657e2a;
    case 78 => n := 0x75fcb6fab3ad6faec;
    case _ => n := 0x76c44198c4a475817;
  }

  /** Section 4.2.3 of FIPS 180-4: the first 64 bits of the fractional parts of the cube roots of the first
      80 primes. */
  lemma K512IsCubeRoot(i: nat) returns (n: nat)
    requires i < 80
    ensures n * n * n <= Prime(i) * 0x1000000000000000000000000000000000000000000000000 < (n + 1) * (n + 1) * (n + 1)
    ensures K512(i) as int == n % 0x10000000000000000
  {
    hide *;
    if i < 8 {
      n := FirstRoots512(i);
    } else if i < 16 {
      n := SecondRoots512(i);
    } else if i < 24 {
      n := ThirdRoots512(i);
    } else if i < 32 {
      n := FourthRoots512(i);
    } else if i < 40 {
      n := FifthRoots512(i);
    } else if i < 48 {
      n := SixthRoots512(i);
    } else if i < 56 {
      n := SeventhRoots512(i);
    } else if i < 64 {
      n := EighthRoots512(i);
    } else if i < 72 {
      n := NinthRoots512(i);
    } else {
      n := TenthRoots512(i);
    }
    UseRoot512(i, n);
  }

  lemma UseRoot512(i: nat, n: nat)
    requires i < 80 && CubeRoot512(i, n)
    ensures n * n * n <= Prime(i) * 0x1000000000000000000000000000000000000000000000000 < (n + 1) * (n + 1) * (n + 1)
    ensures K512(i) as int == n % 0x10000000000000000
  {
    hide Prime;
    hide K512;
  }

  /** Section 5.3.5: the initial words are the fractions of the square roots of the first eight primes. */
  lemma Initial512IsSquareRoot(i: nat) returns (n: nat)
    requires i < 8
    ensures n * n <= Prime(i) * 0x100000000000000000000000000000000 < (n + 1) * (n + 1)
    ensures SHA512_INITIAL[i] == n % 0x10000000000000000
  {
    hide SquareRoot512;
    SquareRoots512();
    n :| SquareRoot512(i, n);
    UseSquareRoot512(i, n);
  }

  ghost predicate SquareRoot512(i: nat, n: nat)
    requires i < 8
  {
    n * n <= Prime(i) * 0x100000000000000000000000000000000 < (n + 1) * (n + 1) && SHA512_INITIAL[i] == n % 0x10000000000000000
  }

  lemma SquareRoots512()
    ensures SquareRoot512(0, 0x16a09e667f3bcc908)
    ensures SquareRoot512(1, 0x1bb67ae8584caa73b)
    ensures SquareRoot512(2, 0x23c6ef372fe94f82b)
    ensures SquareRoot512(3, 0x2a54ff53a5f1d36f1)
    ensures SquareRoot512(4, 0x3510e527fade682d1)
    ensures SquareRoot512(5, 0x39b05688c2b3e6c1f)
    ensures SquareRoot512(6, 0x41f83d9abfb41bd6b)
    ensures SquareRoot512(7, 0x45be0cd19137e2179)
  {
  }

  lemma UseSquareRoot512(i: nat, n: nat)
    requires i < 8 && SquareRoot512(i, n)
    ensures n * n <= Prime(i) * 0x100000000000000000000000000000000 < (n + 1) * (n + 1)
    ensures SHA512_INITIAL[i] == n % 0x10000000000000000
  {
    hide Prime;
    hide SHA512_INITIAL;
  }
}
