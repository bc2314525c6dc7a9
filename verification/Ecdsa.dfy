/** ECDSA over P-256 with SHA-256 digests and deterministic nonces, `src/ecdsa.cpp`
    (section 6.4 of FIPS 186-5, section 3.2 of RFC 6979). */
module Ecdsa {
  import opened NumberTheory
  import opened Digits
  import opened PrimeField
  import opened Words256
  import opened Weierstrass
  import opened P256Points
  import opened P256
  import opened Results
  import P256Limbs
  import BigInt
  import EcDer

  const DIGEST_SIZE: nat := 32
  const MAX_ATTEMPTS: nat := 16
  const HALF_ORDER: int := (N - 1) / 2

  /** What is taken from outside: the group law, a prime order n, and n * G = 0. */
  ghost predicate GroupOfPrimeOrder() {
    GroupLaw() && IsPrime(N) && Mul(CURVE, N, G) == INFINITY
  }

  type Hmac = (seq<Byte>, seq<Byte>) -> seq<Byte>

  datatype Option<T> = None | Some(value: T)

  datatype ScalarPair = ScalarPair(r: int, s: int)

  // ----- fixed-width bytes -----

  lemma BeSplit(s: seq<Byte>, i: nat)
    requires i <= |s|
    ensures Be(s) == Be(s[..i]) * Pow(256, |s| - i) + Be(s[i..])
  {
    assert s == s[..i] + s[i..];
    BeConcat(s[..i], s[i..]);
  }

  /** The first differing byte decides. */
  lemma FirstDifference(s: seq<Byte>, t: seq<Byte>, i: nat)
    requires |s| == |t| && i < |s| && s[..i] == t[..i] && s[i] < t[i]
    ensures Be(s) < Be(t)
  {
    hide Be;
    hide Pow;
    BeSplit(s, i);
    BeSplit(t, i);
    assert s[i..] == [s[i]] + s[i + 1..] && t[i..] == [t[i]] + t[i + 1..];
    BeCons(s[i], s[i + 1..]);
    BeCons(t[i], t[i + 1..]);
    BeBound(s[i + 1..]);
    LargerDigit(s[i], t[i], Pow(256, |s| - i - 1), Be(s[i + 1..]), Be(t[i + 1..]));
  }

  lemma LargerDigit(x: int, y: int, p: int, u: int, v: int)
    requires x < y && 0 <= u < p && 0 <= v
    ensures x * p + u < y * p + v
  {
    MulMagnitude(y - x, p);
    assert y * p == x * p + (y - x) * p;
  }

  /** The last 32 bytes, padded on the left. */
  method Fixed32(value: seq<Byte>) returns (r: seq<Byte>)
    ensures |r| == 32 && Pow(256, 32) > 0 && Be(r) == Be(value) % Pow(256, 32)
  {
    PowPositive(256, 32);
    var copySize := if |value| < 32 then |value| else 32;
    var zeros := seq(32 - copySize, _ => 0);
    r := zeros + value[|value| - copySize..];
    hide Be;
    hide Pow;
    BeConcat(zeros, value[|value| - copySize..]);
    BeZeros(zeros);
    BeBound(r);
    BeSplit(value, |value| - copySize);
    if |value| >= 32 {
      DivModUnique(Be(value), Pow(256, 32), Be(value[..|value| - 32]), Be(r));
    } else {
      assert value[|value| - copySize..] == value;
      ModSmall(Be(r), Pow(256, 32));
    }
  }

  /** Lexicographic order on equal lengths is the numeric order. */
  method GreaterThan32(lhs: seq<Byte>, rhs: seq<Byte>) returns (r: bool)
    requires |lhs| == 32 && |rhs| == 32
    ensures r <==> Be(lhs) > Be(rhs)
  {
    for i := 0 to 32
      invariant lhs[..i] == rhs[..i]
    {
      if rhs[i] < lhs[i] {
        FirstDifference(rhs, lhs, i);
        return true;
      }
      if lhs[i] < rhs[i] {
        FirstDifference(lhs, rhs, i);
        return false;
      }
      assert lhs[..i + 1] == lhs[..i] + [lhs[i]] && rhs[..i + 1] == rhs[..i] + [rhs[i]];
    }
    assert lhs[..32] == lhs && rhs[..32] == rhs;
    r := false;
  }

  /** Byte-wise subtraction with a borrow: the difference modulo 2^256. */
  method Subtract32(lhs: seq<Byte>, rhs: seq<Byte>) returns (r: seq<Byte>)
    requires |lhs| == 32 && |rhs| == 32
    ensures |r| == 32
    ensures Be(r) == if Be(lhs) >= Be(rhs) then Be(lhs) - Be(rhs) else Be(lhs) - Be(rhs) + Pow(256, 32)
  {
    hide Be;
    hide Pow;
    var output := new Byte[32](_ => 0);
    var borrow := 0;
    EmptyTails(output[..], lhs, rhs);
    for i := 32 downto 0
      invariant 0 <= borrow <= 1
      invariant Be(output[i..]) == Be(lhs[i..]) - Be(rhs[i..]) + borrow * Pow(256, 32 - i)
    {
      ghost var tail, b0 := output[i + 1..], borrow;
      var left, right := lhs[i], rhs[i] + borrow;
      if left >= right {
        output[i] := left - right;
        borrow := 0;
      } else {
        output[i] := left + 0x100 - right;
        borrow := 1;
      }
      assert output[i..] == [output[i]] + tail;
      BorrowByte(output[i], tail, lhs, rhs, i, b0, borrow);
    }
    assert output[0..] == output[..] && lhs[0..] == lhs && rhs[0..] == rhs;
    r := output[..];
    BeBound(r);
    BeBound(lhs);
    BeBound(rhs);
  }

  lemma EmptyTails(a: seq<Byte>, b: seq<Byte>, c: seq<Byte>)
    requires |a| == |b| == |c| == 32
    ensures Be(a[32..]) == 0 && Be(b[32..]) == 0 && Be(c[32..]) == 0
  {
  }

  lemma BorrowByte(out: Byte, tail: seq<Byte>, lhs: seq<Byte>, rhs: seq<Byte>, i: nat, b0: int, b: int)
    requires |lhs| == 32 && |rhs| == 32 && i < 32 && |tail| == 31 - i
    requires out == lhs[i] - rhs[i] - b0 + 0x100 * b
    requires Be(tail) == Be(lhs[i + 1..]) - Be(rhs[i + 1..]) + b0 * Pow(256, 31 - i)
    ensures Be([out] + tail) == Be(lhs[i..]) - Be(rhs[i..]) + b * Pow(256, 32 - i)
  {
    hide Be;
    BeCons(out, tail);
    assert lhs[i..] == [lhs[i]] + lhs[i + 1..] && rhs[i..] == [rhs[i]] + rhs[i + 1..];
    BeCons(lhs[i], lhs[i + 1..]);
    BeCons(rhs[i], rhs[i + 1..]);
    var p := Pow(256, 31 - i);
    assert Pow(256, 32 - i) == 256 * p;
    hide Pow;
    BorrowIdentity(out, lhs[i], rhs[i], b0, b, p);
  }

  lemma BorrowIdentity(out: int, l: int, r: int, b0: int, b: int, p: int)
    requires out == l - r - b0 + 0x100 * b
    ensures out * p + b0 * p == l * p - r * p + b * (256 * p)
  {
    assert (l - r - b0 + 0x100 * b) * p == l * p - r * p - b0 * p + (0x100 * b) * p;
  }

  /** The order and its half as the code spells them. */
  const ORDER_BYTES: seq<Byte> := [
    0xFF, 0xFF, 0xFF, 0xFF, 0x00, 0x00, 0x00, 0x00, 0xFF, 0xFF, 0xFF, 0xFF, 0xFF, 0xFF, 0xFF, 0xFF,
    0xBC, 0xE6, 0xFA, 0xAD, 0xA7, 0x17, 0x9E, 0x84, 0xF3, 0xB9, 0xCA, 0xC2, 0xFC, 0x63, 0x25, 0x51]

  const HALF_ORDER_BYTES: seq<Byte> := [
    0x7F, 0xFF, 0xFF, 0xFF, 0x80, 0x00, 0x00, 0x00, 0x7F, 0xFF, 0xFF, 0xFF, 0xFF, 0xFF, 0xFF, 0xFF,
    0xDE, 0x73, 0x7D, 0x56, 0xD3, 0x8B, 0xCF, 0x42, 0x79, 0xDC, 0xE5, 0x61, 0x7E, 0x31, 0x92, 0xA8]

  lemma FourBytes(prefix: seq<Byte>, a: Byte, b: Byte, c: Byte, d: Byte)
    ensures Be(prefix + [a, b, c, d]) == Be(prefix) * 0x1_0000_0000 + (a * 0x100_0000 + b * 0x1_0000 + c * 0x100 + d)
  {
    hide Be;
    BeSnoc(prefix, a);
    BeSnoc(prefix + [a], b);
    BeSnoc(prefix + [a] + [b], c);
    BeSnoc(prefix + [a] + [b] + [c], d);
    assert prefix + [a] + [b] + [c] + [d] == prefix + [a, b, c, d];
  }

  lemma ThirtyTwoBytes(s: seq<Byte>)
    requires |s| == 32
    ensures Be(s) == WordsValue(WordAt(s, 0), WordAt(s, 4), WordAt(s, 8), WordAt(s, 12), WordAt(s, 16), WordAt(s, 20), WordAt(s, 24), WordAt(s, 28))
  {
    hide Be;
    hide WordAt;
    EmptyBytes(s);
    NextWord(s, 0);
    NextWord(s, 4);
    NextWord(s, 8);
    NextWord(s, 12);
    NextWord(s, 16);
    NextWord(s, 20);
    NextWord(s, 24);
    NextWord(s, 28);
    assert s[..32] == s;
  }

  function WordsValue(a: int, b: int, c: int, d: int, e: int, f: int, g: int, h: int): int {
    var k := 0x1_0000_0000;
    ((((((a * k + b) * k + c) * k + d) * k + e) * k + f) * k + g) * k + h
  }

  function WordAt(s: seq<Byte>, i: nat): int
    requires i + 4 <= |s|
  {
    var a: int, b: int, c: int, d: int := s[i], s[i + 1], s[i + 2], s[i + 3];
    a * 0x100_0000 + b * 0x1_0000 + c * 0x100 + d
  }

  lemma NextWord(s: seq<Byte>, i: nat)
    requires i + 4 <= |s|
    ensures Be(s[..i + 4]) == Be(s[..i]) * 0x1_0000_0000 + WordAt(s, i)
  {
    assert s[..i + 4] == s[..i] + [s[i], s[i + 1], s[i + 2], s[i + 3]];
    FourBytes(s[..i], s[i], s[i + 1], s[i + 2], s[i + 3]);
  }

  lemma EmptyBytes(s: seq<Byte>)
    ensures Be(s[..0]) == 0
  {
  }

  lemma OrderWordsFirst(s: seq<Byte>)
    requires s == ORDER_BYTES
    ensures WordAt(s, 0) == 0xFFFFFFFF && WordAt(s, 4) == 0x00000000
  {
  }

  lemma OrderWordsSecond(s: seq<Byte>)
    requires s == ORDER_BYTES
    ensures WordAt(s, 8) == 0xFFFFFFFF && WordAt(s, 12) == 0xFFFFFFFF
  {
  }

  lemma OrderWordsThird(s: seq<Byte>)
    requires s == ORDER_BYTES
    ensures WordAt(s, 16) == 0xBCE6FAAD && WordAt(s, 20) == 0xA7179E84
  {
  }

  lemma OrderWordsFourth(s: seq<Byte>)
    requires s == ORDER_BYTES
    ensures WordAt(s, 24) == 0xF3B9CAC2 && WordAt(s, 28) == 0xFC632551
  {
  }

  lemma HalfOrderWordsFirst(s: seq<Byte>)
    requires s == HALF_ORDER_BYTES
    ensures WordAt(s, 0) == 0x7FFFFFFF && WordAt(s, 4) == 0x80000000
  {
  }

  lemma HalfOrderWordsSecond(s: seq<Byte>)
    requires s == HALF_ORDER_BYTES
    ensures WordAt(s, 8) == 0x7FFFFFFF && WordAt(s, 12) == 0xFFFFFFFF
  {
  }

  lemma HalfOrderWordsThird(s: seq<Byte>)
    requires s == HALF_ORDER_BYTES
    ensures WordAt(s, 16) == 0xDE737D56 && WordAt(s, 20) == 0xD38BCF42
  {
  }

  lemma HalfOrderWordsFourth(s: seq<Byte>)
    requires s == HALF_ORDER_BYTES
    ensures WordAt(s, 24) == 0x79DCE561 && WordAt(s, 28) == 0x7E3192A8
  {
  }

  /** The byte constants denote n and (n - 1) / 2. */
  lemma OrderBytes()
    ensures |ORDER_BYTES| == 32 && |HALF_ORDER_BYTES| == 32
    ensures Be(ORDER_BYTES) == N && Be(HALF_ORDER_BYTES) == HALF_ORDER && N == 2 * HALF_ORDER + 1
  {
    ConstantValues();
    hide Be;
    hide WordAt;
    hide Spelled;
    ThirtyTwoBytes(ORDER_BYTES);
    OrderWordsFirst(ORDER_BYTES);
    OrderWordsSecond(ORDER_BYTES);
    OrderWordsThird(ORDER_BYTES);
    OrderWordsFourth(ORDER_BYTES);
    ThirtyTwoBytes(HALF_ORDER_BYTES);
    HalfOrderWordsFirst(HALF_ORDER_BYTES);
    HalfOrderWordsSecond(HALF_ORDER_BYTES);
    HalfOrderWordsThird(HALF_ORDER_BYTES);
    HalfOrderWordsFourth(HALF_ORDER_BYTES);
  }

  /** s or n - s, whichever is at most (n - 1) / 2. */
  function LowS(s: int): int {
    if s > HALF_ORDER then N - s else s
  }

  method LowSBytes(s: seq<Byte>) returns (r: seq<Byte>)
    ensures |r| == 32 && Pow(256, 32) > 0
    ensures var f := Be(s) % Pow(256, 32);
            Be(r) == if f > HALF_ORDER then (N - f) % Pow(256, 32) else f
    ensures Be(s) < N ==> Be(r) == LowS(Be(s))
  {
    hide Be;
    hide Pow;
    OrderBytes();
    RadixFits();
    hide Spelled;
    var fixed := Fixed32(s);
    ghost var f := Be(s) % Pow(256, 32);
    if Be(s) < N {
      ModSmall(Be(s), Pow(256, 32));
    }
    var high := GreaterThan32(fixed, HALF_ORDER_BYTES);
    if high {
      r := Subtract32(ORDER_BYTES, fixed);
      WrappedNegation(N - f, Be(r), Pow(256, 32));
      return;
    }
    r := fixed;
  }

  lemma WrappedNegation(x: int, r: int, p: int)
    requires -p < x < p && r == if x >= 0 then x else x + p
    ensures r == x % p
  {
    ModAddMultiple(x, 1, p);
    ModSmall(r, p);
  }

  lemma RadixFits()
    ensures N < Pow(256, 32) == P256Limbs.RADIX
  {
    RadixBytes();
    hide Val;
    ConstantsAgree();
    P256Limbs.U256Bound(N_VALUE);
  }

  // ----- the signature equation -----

  /** One attempt with nonce k; none when the nonce is out of range or a part comes out zero. */
  function Attempt(d: int, e: int, k: nat): (pair: Option<ScalarPair>)
    ensures pair.Some? ==> 0 < pair.value.r < N && 0 < pair.value.s <= HALF_ORDER
  {
    OrderPositive();
    hide *;
    if !(0 < k < N) then None else
      var point := Mul(CURVE, k, G);
      if point.infinity then None else
        var r := point.x % N;
        if r == 0 then None else
          var s := FMul(N, FInv(N, k), FAdd(N, e, FMul(N, r, d)));
          if s == 0 then None else Some(ScalarPair(r, LowS(s)))
  }

  /** The verification equation of section 6.4.2 of FIPS 186-5. */
  ghost predicate Verifies(q: AffinePoint, e: int, r: int, s: int) {
    && 0 < r < N && 0 < s < N
    && var w := FInv(N, s);
       var sum := Add(CURVE, Mul(CURVE, FMul(N, e, w), G), Mul(CURVE, FMul(N, r, w), q));
       !sum.infinity && sum.x % N == r
  }

  /** The inverse the code computes is the only one. */
  lemma OnlyInverse(x: int, w: int)
    requires IsPrime(N) && 0 < x < N && 0 <= w < N && (x * w) % N == 1
    ensures FInv(N, x) == w
  {
    hide *;
    OrderPositive();
    Inverts(x);
    SmallCong(x * w);
    InverseUnique(N, x, w, FInv(N, x));
  }

  lemma SmallCong(x: int)
    requires x % N == 1
    ensures N > 1 && Cong(x, 1, N)
  {
    OrderPositive();
    ModSmall(1, N);
  }

  /** The equation with the inverse written out: (e w) G + (r w) Q has abscissa r modulo n, for s w = 1. */
  lemma VerifiesWith(q: AffinePoint, e: int, r: int, s: int, w: int)
    requires IsPrime(N) && 0 < r < N && 0 < s < N && 0 <= w < N && (s * w) % N == 1
    ensures (e * w) % N >= 0 && (r * w) % N >= 0
    ensures var sum := Add(CURVE, Mul(CURVE, (e * w) % N, G), Mul(CURVE, (r * w) % N, q));
            Verifies(q, e, r, s) <==> !sum.infinity && sum.x % N == r
  {
    hide *;
    OnlyInverse(s, w);
    VerifiesCases(q, e, r, s);
    ProductResidue(e, w);
    ProductResidue(r, w);
  }

  /** An attempt with the inverse written out: r is the abscissa of k G and s = (e + r d) / k, negated
      where it is in the upper half. */
  lemma AttemptWith(d: int, e: int, k: nat, i: int)
    requires IsPrime(N) && 0 < k < N && 0 <= i < N && (k * i) % N == 1
    ensures var point := Mul(CURVE, k, G);
            var r := point.x % N;
            var s := (i * (e + r * d)) % N;
            Attempt(d, e, k) == if point.infinity || r == 0 || s == 0 then None
                                else Some(ScalarPair(r, if s > (N - 1) / 2 then N - s else s))
  {
    hide *;
    OrderPositive();
    OnlyInverse(k, i);
    AttemptCases(d, e, k);
    CurvePositive();
    var r := Mul(CURVE, k, G).x % N;
    NestedResidue(i, e, r, d);
    LowSIs((i * (e + r * d)) % N);
  }

  lemma CurvePositive()
    ensures CURVE.p > 1
  {
    ConstantValues();
    hide Spelled;
  }

  lemma LowSIs(s: int)
    ensures LowS(s) == if s > (N - 1) / 2 then N - s else s
  {
  }

  lemma NestedResidue(i: int, e: int, r: int, d: int)
    ensures N > 0 && FMul(N, i, FAdd(N, e, FMul(N, r, d))) == (i * (e + r * d)) % N
  {
    OrderPositive();
    hide FMul;
    hide FAdd;
    hide Cong;
    CongSelf(i, N);
    CongSelf(e, N);
    CongSelf(r, N);
    CongSelf(d, N);
    FMulCong(N, r, r, d, d);
    FAddCong(N, e, e, FMul(N, r, d), r * d);
    FMulCong(N, i, i, FAdd(N, e, FMul(N, r, d)), e + r * d);
    CongMod(i * (e + r * d), N);
    CongFlip(i * (e + r * d), (i * (e + r * d)) % N, FMul(N, i, FAdd(N, e, FMul(N, r, d))));
  }

  lemma CongFlip(a: int, b: int, c: int)
    requires N > 0 && Cong(b, a, N) && Cong(c, a, N) && 0 <= b < N && 0 <= c < N
    ensures c == b
  {
    CongUnique(b, c, N);
  }

  lemma RecoverNonce(n: int, d: int, e: int, r: int, k: int, ki: int, s0: int, s: int, w: int, u1: int, u2: int)
    requires n > 0 && Cong(k * ki, 1, n) && Cong(s0, ki * (e + r * d), n) && Cong(s * w, 1, n)
    requires Cong(u1, e * w, n) && Cong(u2, r * w, n)
    ensures Cong(s, s0, n) ==> Cong(u1 + u2 * d, k, n)
    ensures Cong(s, -s0, n) ==> Cong(u1 + u2 * d, -k, n)
  {
    var x := e + r * d;
    CongMul(u2, r * w, d, d, n);
    CongAdd(u1, e * w, u2 * d, r * w * d, n);
    assert e * w + r * w * d == x * w;
    CongMul(k, k, s0, ki * x, n);
    assert k * (ki * x) == (k * ki) * x;
    CongMul(k * ki, 1, x, x, n);
    CongMul(k * s0, x, w, w, n);
    if Cong(s, s0, n) {
      CancelProduct(n, k, s0, s, w);
    }
    if Cong(s, -s0, n) {
      CancelProduct(n, -k, -s0, s, w);
      assert k * s0 == (-k) * (-s0);
    }
  }

  lemma CancelProduct(n: int, k: int, s0: int, s: int, w: int)
    requires n > 0 && Cong(s, s0, n) && Cong(s * w, 1, n)
    ensures Cong(k * s0 * w, k, n)
  {
    CongMul(s, s0, w, w, n);
    CongMul(k, k, s0 * w, 1, n);
    assert k * s0 * w == k * (s0 * w);
  }

  /** The lower s is the computed one or its negative. */
  lemma LowSCong(s: int)
    requires 0 < s < N
    ensures 0 < LowS(s) <= HALF_ORDER < N
    ensures Cong(LowS(s), s, N) || Cong(LowS(s), -s, N)
  {
    OrderPositive();
    CongFrom(N - s, -s, N, 1);
  }

  lemma SignatureRecovers(d: int, e: int, k: nat, r: int, s0: int)
    requires IsPrime(N) && 0 < k < N && 0 < s0 < N
    requires s0 == FMul(N, FInv(N, k), FAdd(N, e, FMul(N, r, d)))
    ensures var w := FInv(N, LowS(s0));
            var t := FMul(N, e, w) + FMul(N, r, w) * d;
            t % N == k || t % N == N - k
  {
    hide *;
    var s := LowS(s0);
    var ki, w := FInv(N, k), FInv(N, s);
    OrderPositive();
    LowSCong(s0);
    Inverts(k);
    Inverts(s);
    Reflexives(e, r, d, w, ki);
    FMulCong(N, r, r, d, d);
    FAddCong(N, e, e, FMul(N, r, d), r * d);
    FMulCong(N, ki, ki, FAdd(N, e, FMul(N, r, d)), e + r * d);
    FMulCong(N, e, e, w, w);
    FMulCong(N, r, r, w, w);
    RecoverNonce(N, d, e, r, k, ki, s0, s, w, FMul(N, e, w), FMul(N, r, w));
    NonceResidue(FMul(N, e, w) + FMul(N, r, w) * d, k);
  }

  lemma OrderPositive()
    ensures N > 1 && 0 < HALF_ORDER < N && N == 2 * HALF_ORDER + 1
  {
    ConstantValues();
    hide Spelled;
  }

  lemma Inverts(x: int)
    requires IsPrime(N) && 0 < x < N
    ensures Cong(x * FInv(N, x), 1, N)
  {
    ModSmall(x, N);
    FInvCorrect(N, x);
  }

  lemma Reflexives(a: int, b: int, c: int, d: int, e: int)
    ensures Cong(a, a, N) && Cong(b, b, N) && Cong(c, c, N) && Cong(d, d, N) && Cong(e, e, N)
  {
  }

  lemma NonceResidue(t: int, k: int)
    requires 0 < k < N
    ensures Cong(t, k, N) ==> t % N == k
    ensures Cong(t, -k, N) ==> t % N == N - k
  {
    ModSmall(k, N);
    ModAddMultiple(-k, 1, N);
    ModSmall(N - k, N);
  }

  /** Opposite multiples have one x-coordinate. */
  lemma OppositeSameX(k: nat)
    requires GroupOfPrimeOrder() && 0 < k < N && !Mul(CURVE, k, G).infinity
    ensures !Mul(CURVE, N - k, G).infinity && Mul(CURVE, N - k, G).x == Mul(CURVE, k, G).x
  {
    hide *;
    UseGroup();
    BasePoint();
    MulAdd(CURVE, G, N - k, k);
    SumIsInfinity(Mul(CURVE, N - k, G), Mul(CURVE, k, G));
  }

  lemma SumIsInfinity(q: AffinePoint, r: AffinePoint)
    requires Add(CURVE, q, r) == INFINITY && !r.infinity
    ensures !q.infinity && q.x == r.x
  {
    hide Double;
    hide FAdd;
    hide FMul;
    hide FSub;
    hide FInv;
  }

  lemma UseGroup()
    requires GroupOfPrimeOrder()
    ensures GroupLaw() && IsCurve(CURVE) && Associative(CURVE) && CURVE.p > 3 && IsPrime(N) && N > 1
    ensures Mul(CURVE, N, G) == INFINITY
  {
    hide Mul;
    hide IsPrime;
    hide Associative;
  }

  /** u1 * G + u2 * (d * G) is (u1 + u2 * d) * G, which depends on the residue modulo n only. */
  lemma CombinedMultiple(u1: nat, u2: nat, d: nat)
    requires GroupOfPrimeOrder()
    ensures u2 * d >= 0 && (u1 + u2 * d) % N >= 0
    ensures Add(CURVE, Mul(CURVE, u1, G), Mul(CURVE, u2, Mul(CURVE, d, G))) == Mul(CURVE, (u1 + u2 * d) % N, G)
  {
    hide *;
    UseGroup();
    BasePoint();
    MulMul(CURVE, G, u2, d);
    MulAdd(CURVE, G, u1, u2 * d);
    MulModOrder(CURVE, G, N, u1 + u2 * d);
  }

  /** Completeness: what an attempt returns satisfies the verification equation under d * G, with s
      in the lower half. */
  lemma AttemptVerifies(d: nat, e: nat, k: nat)
    requires GroupOfPrimeOrder() && Attempt(d, e, k).Some?
    ensures var pair := Attempt(d, e, k).value;
            Verifies(Mul(CURVE, d, G), e, pair.r, pair.s) && 0 < pair.s <= HALF_ORDER
  {
    hide Mul;
    hide Add;
    hide FMul;
    hide FAdd;
    hide FInv;
    hide IsPrime;
    hide LowS;
    hide GroupLaw;
    var r := Mul(CURVE, k, G).x % N;
    var s0 := FMul(N, FInv(N, k), FAdd(N, e, FMul(N, r, d)));
    LowSCong(s0);
    var w := FInv(N, LowS(s0));
    SignatureRecovers(d, e, k, r, s0);
    CombinedMultiple(FMul(N, e, w), FMul(N, r, w), d);
    OppositeSameX(k);
  }

  // ----- the nonce generator -----

  datatype NonceState = NonceState(k: seq<Byte>, v: seq<Byte>)

  /** Steps b to g of section 3.2 of RFC 6979. */
  function FirstState(hmac: Hmac, x: seq<Byte>, h: seq<Byte>): NonceState {
    var v := seq(32, _ => 1);
    var k := hmac(seq(32, _ => 0), v + [0x00] + x + h);
    var v1 := hmac(k, v);
    var k1 := hmac(k, v1 + [0x01] + x + h);
    NonceState(k1, hmac(k1, v1))
  }

  /** Step h: the candidate is the new v. */
  function Advanced(hmac: Hmac, state: NonceState): NonceState {
    NonceState(state.k, hmac(state.k, state.v))
  }

  function Rejected(hmac: Hmac, state: NonceState): NonceState {
    var k := hmac(state.k, state.v + [0x00]);
    NonceState(k, hmac(k, state.v))
  }

  lemma FirstStateIs(hmac: Hmac, x: seq<Byte>, h: seq<Byte>)
    ensures var zeros: seq<Byte> := [0, 0, 0, 0, 0, 0, 0, 0, 0, 0, 0, 0, 0, 0, 0, 0, 0, 0, 0, 0, 0, 0, 0, 0, 0, 0, 0, 0, 0, 0, 0, 0];
            var ones: seq<Byte> := [1, 1, 1, 1, 1, 1, 1, 1, 1, 1, 1, 1, 1, 1, 1, 1, 1, 1, 1, 1, 1, 1, 1, 1, 1, 1, 1, 1, 1, 1, 1, 1];
            var k0 := hmac(zeros, ones + [0x00] + x + h);
            var v0 := hmac(k0, ones);
            var k1 := hmac(k0, v0 + [0x01] + x + h);
            FirstState(hmac, x, h) == NonceState(k1, hmac(k1, v0))
  {
    Repeats();
  }

  lemma Repeats()
    ensures seq(32, _ => 0) == [0, 0, 0, 0, 0, 0, 0, 0, 0, 0, 0, 0, 0, 0, 0, 0, 0, 0, 0, 0, 0, 0, 0, 0, 0, 0, 0, 0, 0, 0, 0, 0]
    ensures seq(32, _ => 1) == [1, 1, 1, 1, 1, 1, 1, 1, 1, 1, 1, 1, 1, 1, 1, 1, 1, 1, 1, 1, 1, 1, 1, 1, 1, 1, 1, 1, 1, 1, 1, 1]
  {
  }

  /** The seed binds the scalar and the digest: for an HMAC without collisions, one state comes from one pair. */
  lemma FirstStateInjective(hmac: Hmac, x: seq<Byte>, h: seq<Byte>, x': seq<Byte>, h': seq<Byte>)
    requires forall k, m, k', m' :: hmac(k, m) == hmac(k', m') ==> k == k' && m == m'
    requires |h| == |h'| == 32 && FirstState(hmac, x, h) == FirstState(hmac, x', h')
    ensures x == x' && h == h'
  {
    var v := seq(32, _ => 1);
    var k, k' := hmac(seq(32, _ => 0), v + [0x00] + x + h), hmac(seq(32, _ => 0), v + [0x00] + x' + h');
    var m, m' := hmac(k, v) + [0x01] + x + h, hmac(k', v) + [0x01] + x' + h';
    assert hmac(k, m) == hmac(k', m');
    assert m[|m| - 32..] == h && m'[|m'| - 32..] == h';
    var n := |hmac(k, v)| + 1;
    assert m[n..|m| - 32] == x && m'[n..|m'| - 32] == x';
  }

  class Rfc6979P256Sha256 {
    const hmac: Hmac
    var k: seq<Byte>
    var v: seq<Byte>

    function State(): NonceState
      reads this
    {
      NonceState(k, v)
    }

    /** `create`, after the digest has been reduced to octets. */
    constructor (hmac: Hmac, privateScalar: seq<Byte>, digestOctets: seq<Byte>)
      ensures this.hmac == hmac && State() == FirstState(hmac, privateScalar, digestOctets)
      ensures var zeros: seq<Byte> := [0, 0, 0, 0, 0, 0, 0, 0, 0, 0, 0, 0, 0, 0, 0, 0, 0, 0, 0, 0, 0, 0, 0, 0, 0, 0, 0, 0, 0, 0, 0, 0];
              var ones: seq<Byte> := [1, 1, 1, 1, 1, 1, 1, 1, 1, 1, 1, 1, 1, 1, 1, 1, 1, 1, 1, 1, 1, 1, 1, 1, 1, 1, 1, 1, 1, 1, 1, 1];
              var k0 := hmac(zeros, ones + [0x00] + privateScalar + digestOctets);
              var v0 := hmac(k0, ones);
              k == hmac(k0, v0 + [0x01] + privateScalar + digestOctets) && v == hmac(k, v0)
    {
      FirstStateIs(hmac, privateScalar, digestOctets);
      this.hmac := hmac;
      k := seq(32, _ => 0);
      v := seq(32, _ => 1);
      new;
      var input := v + [0x00] + privateScalar + digestOctets;
      k := hmac(k, input);
      v := hmac(k, v);
      input := v + [0x01] + privateScalar + digestOctets;
      k := hmac(k, input);
      v := hmac(k, v);
    }

    method Next() returns (candidate: seq<Byte>)
      modifies this`v
      ensures State() == Advanced(hmac, old(State())) && candidate == v
      ensures k == old(k) && v == hmac(k, old(v))
    {
      v := hmac(k, v);
      candidate := v;
    }

    method Reject()
      modifies this
      ensures State() == Rejected(hmac, old(State()))
      ensures k == hmac(old(k), old(v) + [0x00]) && v == hmac(k, old(v))
    {
      var input := v + [0x00];
      k := hmac(k, input);
      v := hmac(k, v);
    }
  }

  // ----- signing -----

  /** The first attempt that succeeds, with at most `left` candidates. */
  function AttemptsFrom(hmac: Hmac, state: NonceState, d: int, e: int, left: nat): (pair: Option<ScalarPair>)
    ensures pair.Some? ==> 0 < pair.value.r < N && 0 < pair.value.s <= HALF_ORDER
    decreases left
  {
    hide Attempt;
    if left == 0 then None else
      var next := Advanced(hmac, state);
      var pair := Attempt(d, e, Be(next.v));
      if pair.Some? then pair else AttemptsFrom(hmac, Rejected(hmac, next), d, e, left - 1)
  }

  lemma {:induction false} AttemptsVerify(hmac: Hmac, state: NonceState, d: nat, e: nat, left: nat)
    requires GroupOfPrimeOrder() && AttemptsFrom(hmac, state, d, e, left).Some?
    ensures var pair := AttemptsFrom(hmac, state, d, e, left).value;
            Verifies(Mul(CURVE, d, G), e, pair.r, pair.s) && 0 < pair.s <= HALF_ORDER
    decreases left
  {
    hide Attempt;
    hide Verifies;
    hide Mul;
    hide GroupOfPrimeOrder;
    var next := Advanced(hmac, state);
    if Attempt(d, e, Be(next.v)).Some? {
      AttemptVerifies(d, e, Be(next.v));
    } else {
      AttemptsVerify(hmac, Rejected(hmac, next), d, e, left - 1);
    }
  }

  /** The same numbers in encodings that differ by leading zeros give one DER string. */
  lemma SameEncoding(a: seq<Byte>, b: seq<Byte>)
    requires Be(a) == Be(b)
    ensures EcDer.IntegerContent(a) == EcDer.IntegerContent(b)
  {
    BeStripZeros(a);
    BeStripZeros(b);
    StripZerosUnique(StripZeros(a), StripZeros(b));
  }

  lemma ShortIsEncodable(r: seq<Byte>, s: seq<Byte>)
    requires |r| <= 32 && |s| <= 32
    ensures EcDer.Encodable(EcDer.Signature(r, s)) && |EcDer.Encoded(EcDer.Signature(r, s))| < 128
  {
    hide EcDer.IntegerContent;
    hide EcDer.Octets;
  }

  /** One attempt on bytes; `None` asks for another nonce. */
  method SignAttempt(kBytes: seq<Byte>, privateScalar: seq<Byte>, digest: seq<Byte>)
    returns (r: Option<(seq<Byte>, seq<Byte>)>)
    requires GroupOfPrimeOrder() && |digest| == 32 && 0 < Be(privateScalar) < N
    ensures r.None? <==> Attempt(Be(privateScalar), Be(digest), Be(kBytes)).None?
    ensures r.Some? ==> var pair := Attempt(Be(privateScalar), Be(digest), Be(kBytes)).value;
                        Be(r.value.0) == pair.r && Be(r.value.1) == pair.s && |r.value.0| <= 32 && |r.value.1| == 32
  {
    hide *;
    UseGroup();
    BasePoint();
    ScalarFits(privateScalar);
    ScalarFits(kBytes);
    DigestFits(digest);
    AttemptCases(Be(privateScalar), Be(digest), Be(kBytes));
    var kValid := ScalarIsValidNonzero(kBytes);
    if !kValid {
      return None;
    }
    var point := BasePointMultiplyWindowed(kBytes);
    PointFacts(kBytes);
    ResidueRange(Mul(CURVE, Be(kBytes), G).x);
    if point.value.infinity {
      return None;
    }
    var rBytes := XModOrder(point.value);
    MinimalValue(rBytes.value, Mul(CURVE, Be(kBytes), G).x % N);
    var rValid := ScalarIsValidNonzero(rBytes.value);
    if !rValid {
      return None;
    }
    ScalarFits(rBytes.value);
    var rd := ScalarMultiplyMod(rBytes.value, privateScalar);
    ProductResidue(Be(rBytes.value), Be(privateScalar));
    MinimalValue(rd.value, FMul(N, Be(rBytes.value), Be(privateScalar)));
    ScalarFits(rd.value);
    var sum := ScalarAddMod(digest, rd.value);
    SumResidue(Be(digest), Be(rd.value));
    MinimalValue(sum.value, FAdd(N, Be(digest), Be(rd.value)));
    var kInverse := ScalarInverse(kBytes);
    MinimalValue(kInverse.value, FInv(N, Be(kBytes)));
    ScalarFits(kInverse.value);
    ScalarFits(sum.value);
    var s := ScalarMultiplyMod(kInverse.value, sum.value);
    ProductResidue(Be(kInverse.value), Be(sum.value));
    MinimalValue(s.value, FMul(N, Be(kInverse.value), Be(sum.value)));
    var sValid := ScalarIsValidNonzero(s.value);
    if !sValid {
      return None;
    }
    var lowS := LowSBytes(s.value);
    r := Some((rBytes.value, lowS));
  }

  lemma ScalarFits(bytes: seq<Byte>)
    ensures Be(bytes) < N ==> Be(bytes) < P256Limbs.RADIX && Be(bytes) % N == Be(bytes)
  {
    hide Be;
    RadixFits();
    if Be(bytes) < N {
      ModSmall(Be(bytes), N);
    }
  }

  lemma DigestFits(digest: seq<Byte>)
    requires |digest| == 32
    ensures Be(digest) < P256Limbs.RADIX
  {
    BeBound(digest);
    RadixFits();
  }

  /** A minimal encoding of a residue: its value, range and length. */
  lemma MinimalValue(bytes: seq<Byte>, n: nat)
    requires BigInt.IsMinimalBe(bytes, n)
    ensures Be(bytes) == n && (n < N ==> |bytes| <= 32)
  {
    hide Be;
    RadixFits();
    if n < N {
      BigInt.MinimalBeLength(bytes, n, 32);
    }
  }

  lemma ProductResidue(a: int, b: int)
    ensures (a * b) % N == FMul(N, a, b) && 0 <= FMul(N, a, b) < N
  {
  }

  lemma SumResidue(a: int, b: int)
    ensures (a + b) % N == FAdd(N, a, b) && 0 <= FAdd(N, a, b) < N
  {
  }

  lemma ResidueRange(x: int)
    ensures N > 0 && 0 <= x % N < N
  {
    OrderPositive();
  }

  lemma PointFacts(k: seq<Byte>)
    requires GroupLaw()
    ensures OnCurve(CURVE, G)
    ensures var point, m := Multiple(k, G), Mul(CURVE, Be(k), G);
            && (point.infinity <==> m.infinity) && (!m.infinity ==> ValidPoint(point))
            && Coordinates(point) == m
  {
    BasePoint();
    MulOnCurve(CURVE, Be(k), G);
    MultipleIs(k, G);
    EncodingBijective(Mul(CURVE, Be(k), G));
    hide Mul;
    hide Be;
    hide ToBe;
    hide SatisfiesEquation;
  }

  lemma AttemptCases(d: int, e: int, k: nat)
    ensures var a, point := Attempt(d, e, k), Mul(CURVE, k, G);
            var r := point.x % N;
            var s := FMul(N, FInv(N, k), FAdd(N, e, FMul(N, r, d)));
            && (!(0 < k < N) || point.infinity || r == 0 || s == 0 ==> a.None?)
            && (0 < k < N && !point.infinity && r != 0 && s != 0 ==> a == Some(ScalarPair(r, LowS(s))))
  {
    hide Mul;
    hide FMul;
    hide FAdd;
    hide FInv;
    hide LowS;
  }

  /** The DER string of a pair. */
  function SignatureDer(pair: ScalarPair): seq<Byte>
    requires 0 <= pair.r && 0 <= pair.s
  {
    ShortIsEncodable(ToBe(pair.r, 32), ToBe(pair.s, 32));
    EcDer.Encoded(EcDer.Signature(ToBe(pair.r, 32), ToBe(pair.s, 32)))
  }

  /** However the two numbers are padded, the DER string is the same. */
  lemma SignatureDerOf(r: seq<Byte>, s: seq<Byte>, pair: ScalarPair)
    requires |r| <= 32 && |s| <= 32 && Be(r) == pair.r < N && Be(s) == pair.s < N
    ensures EcDer.Encodable(EcDer.Signature(r, s)) && EcDer.Encoded(EcDer.Signature(r, s)) == SignatureDer(pair)
  {
    hide EcDer.IntegerContent;
    hide EcDer.Octets;
    hide EcDer.Tlv;
    hide Be;
    hide ToBe;
    RadixFits();
    BeOfToBe(pair.r, 32);
    BeOfToBe(pair.s, 32);
    SameEncoding(r, ToBe(pair.r, 32));
    SameEncoding(s, ToBe(pair.s, 32));
    ShortIsEncodable(r, s);
  }

  /** What signing amounts to: the first successful attempt among sixteen candidates. */
  function SigningPair(hmac: Hmac, privateScalar: seq<Byte>, digest: seq<Byte>): (pair: Option<ScalarPair>)
    ensures pair.Some? ==> 0 < pair.value.r < N && 0 < pair.value.s <= HALF_ORDER
  {
    var state := FirstState(hmac, privateScalar, ToBe(Be(digest) % N, 32));
    AttemptsFrom(hmac, state, Be(privateScalar), Be(digest), MAX_ATTEMPTS)
  }

  /** The candidates one after the other: c is the HMAC of V under K; after a failure the next K is the HMAC
      of c || 00 and the next V that of c (section 3.2 of RFC 6979, step h). */
  ghost predicate CandidateRun(hmac: Hmac, keys: seq<seq<Byte>>, values: seq<seq<Byte>>, candidates: seq<seq<Byte>>) {
    && |keys| == |values| == |candidates| + 1
    && forall i :: 0 <= i < |candidates| ==>
         && candidates[i] == hmac(keys[i], values[i])
         && keys[i + 1] == hmac(keys[i], candidates[i] + [0x00])
         && values[i + 1] == hmac(keys[i + 1], candidates[i])
  }

  lemma {:induction false} AttemptsInRun(hmac: Hmac, keys: seq<seq<Byte>>, values: seq<seq<Byte>>, candidates: seq<seq<Byte>>,
                                         d: int, e: int, i: nat, j: nat)
    requires CandidateRun(hmac, keys, values, candidates) && i <= j <= |candidates|
    requires forall n :: i <= n < j ==> Attempt(d, e, Be(candidates[n])).None?
    requires j < |candidates| ==> Attempt(d, e, Be(candidates[j])).Some?
    ensures AttemptsFrom(hmac, NonceState(keys[i], values[i]), d, e, |candidates| - i)
         == if j < |candidates| then Attempt(d, e, Be(candidates[j])) else None
    decreases j - i
  {
    hide Attempt;
    if i < |candidates| {
      AttemptsStep(hmac, NonceState(keys[i], values[i]), d, e, |candidates| - i);
      if i < j {
        AttemptsInRun(hmac, keys, values, candidates, d, e, i + 1, j);
      }
    }
  }

  /** Signing uses the first of the sixteen candidates, seeded with the scalar and the digest modulo n,
      whose attempt succeeds. */
  lemma FirstGoodCandidate(hmac: Hmac, privateScalar: seq<Byte>, digest: seq<Byte>, h: seq<Byte>,
                           keys: seq<seq<Byte>>, values: seq<seq<Byte>>, candidates: seq<seq<Byte>>, j: nat)
    requires CandidateRun(hmac, keys, values, candidates) && |candidates| == 16 && j <= 16
    requires N > 0 && |h| == 32 && Be(h) == Be(digest) % N
    requires var zeros: seq<Byte> := [0, 0, 0, 0, 0, 0, 0, 0, 0, 0, 0, 0, 0, 0, 0, 0, 0, 0, 0, 0, 0, 0, 0, 0, 0, 0, 0, 0, 0, 0, 0, 0];
             var ones: seq<Byte> := [1, 1, 1, 1, 1, 1, 1, 1, 1, 1, 1, 1, 1, 1, 1, 1, 1, 1, 1, 1, 1, 1, 1, 1, 1, 1, 1, 1, 1, 1, 1, 1];
             var k0 := hmac(zeros, ones + [0x00] + privateScalar + h);
             var v0 := hmac(k0, ones);
             keys[0] == hmac(k0, v0 + [0x01] + privateScalar + h) && values[0] == hmac(keys[0], v0)
    requires forall n :: 0 <= n < j ==> Attempt(Be(privateScalar), Be(digest), Be(candidates[n])).None?
    requires j < 16 ==> Attempt(Be(privateScalar), Be(digest), Be(candidates[j])).Some?
    ensures SigningPair(hmac, privateScalar, digest)
         == if j < 16 then Attempt(Be(privateScalar), Be(digest), Be(candidates[j])) else None
  {
    hide Attempt;
    hide AttemptsFrom;
    hide SigningPair;
    hide FirstState;
    hide Be;
    hide ToBe;
    hide N;
    SigningPairIs(hmac, privateScalar, digest);
    ToBeOfBe(h);
    FirstStateIs(hmac, privateScalar, h);
    AttemptsInRun(hmac, keys, values, candidates, Be(privateScalar), Be(digest), 0, j);
  }

  method SignDigest(hmac: Hmac, privateScalar: seq<Byte>, digest: seq<Byte>) returns (r: Result<seq<Byte>>)
    requires GroupOfPrimeOrder()
    ensures |digest| != 32 ==> r == Err(InvalidArgument)
    ensures |digest| == 32 && !(0 < Be(privateScalar) < N) ==> r == Err(InvalidKey)
    ensures |digest| == 32 && 0 < Be(privateScalar) < N ==>
              var pair := SigningPair(hmac, privateScalar, digest);
              r == if pair.None? then Err(ProviderError) else Ok(SignatureDer(pair.value))
  {
    hide *;
    if |digest| != DigestSize() {
      return Err(InvalidArgument);
    }
    var valid := ScalarIsValidNonzero(privateScalar);
    if !valid {
      return Err(InvalidKey);
    }
    OrderPositive();
    DigestFits(digest);
    var octets := ScalarReduceFixed32(digest);
    var nonce := new Rfc6979P256Sha256(hmac, privateScalar, octets.value);
    ghost var d, e := Be(privateScalar), Be(digest);
    SigningPairIs(hmac, privateScalar, digest);
    for attempt := 0 to 16
      invariant nonce.hmac == hmac && fresh(nonce)
      invariant SigningPair(hmac, privateScalar, digest) == AttemptsFrom(hmac, nonce.State(), d, e, 16 - attempt)
    {
      AttemptsStep(hmac, nonce.State(), d, e, 16 - attempt);
      var candidate := nonce.Next();
      CandidateIsV(nonce);
      var outcome := SignAttempt(candidate, privateScalar, digest);
      if outcome.Some? {
        ghost var pair := Attempt(d, e, Be(candidate)).value;
        SignatureDerOf(outcome.value.0, outcome.value.1, pair);
        var der := EcDer.EncodeSignature(outcome.value.0, outcome.value.1);
        return Ok(der);
      }
      nonce.Reject();
    }
    NoAttempts(hmac, nonce.State(), d, e);
    r := Err(ProviderError);
  }

  function DigestSize(): (n: nat)
    ensures n == 32
  {
    DIGEST_SIZE
  }

  lemma CandidateIsV(nonce: Rfc6979P256Sha256)
    ensures nonce.State().v == nonce.v
  {
  }

  lemma SigningPairIs(hmac: Hmac, privateScalar: seq<Byte>, digest: seq<Byte>)
    ensures Be(digest) % N >= 0
    ensures SigningPair(hmac, privateScalar, digest)
         == AttemptsFrom(hmac, FirstState(hmac, privateScalar, ToBe(Be(digest) % N, 32)), Be(privateScalar), Be(digest), 16)
  {
    hide AttemptsFrom;
  }

  lemma AttemptsStep(hmac: Hmac, state: NonceState, d: int, e: int, left: nat)
    requires left > 0
    ensures var next := Advanced(hmac, state);
            var pair := Attempt(d, e, Be(next.v));
            AttemptsFrom(hmac, state, d, e, left)
              == if pair.Some? then pair else AttemptsFrom(hmac, Rejected(hmac, next), d, e, left - 1)
  {
    hide Attempt;
  }

  lemma NoAttempts(hmac: Hmac, state: NonceState, d: int, e: int)
    ensures AttemptsFrom(hmac, state, d, e, 0).None?
  {
  }

  // ----- verifying -----

  /** The DER string of a minimal pair that satisfies the equation. */
  ghost predicate AcceptedSignature(q: AffinePoint, digest: seq<Byte>, der: seq<Byte>) {
    exists sig: EcDer.Signature ::
      && EcDer.MinimalPair(sig) && EcDer.Encodable(sig) && der == EcDer.Encoded(sig)
      && Verifies(q, Be(digest), Be(sig.r), Be(sig.s))
  }

  /** Accepts exactly the encodings of pairs that satisfy the equation under a valid public key. */
  method VerifyDigest(publicX: seq<Byte>, publicY: seq<Byte>, signatureDer: seq<Byte>, digest: seq<Byte>)
    returns (r: Result<bool>)
    requires GroupOfPrimeOrder() && |signatureDer| < EcDer.SIZE_LIMIT
    ensures |digest| != 32 ==> r == Err(InvalidArgument)
    ensures |digest| == 32 && !ValidPoint(P256Point(publicX, publicY, false)) ==> r == Err(InvalidKey)
    ensures |digest| == 32 && ValidPoint(P256Point(publicX, publicY, false)) ==>
              r == Ok(AcceptedSignature(Coordinates(P256Point(publicX, publicY, false)), digest, signatureDer))
  {
    hide *;
    if |digest| != DigestSize() {
      return Err(InvalidArgument);
    }
    UseGroup();
    var parsedPoint := PointFromCoordinates(publicX, publicY);
    if parsedPoint.Err? {
      return Err(InvalidKey);
    }
    var point := parsedPoint.value;
    ghost var q := Coordinates(point);
    var signature := EcDer.ParseSignature(signatureDer);
    if signature.Err? {
      NotAccepted(q, digest, signatureDer);
      return Ok(false);
    }
    var sig := signature.value;
    OnlySignature(q, digest, signatureDer, sig);
    var valid := VerifyPair(point, digest, sig.r, sig.s);
    r := Ok(valid);
  }

  lemma NotAccepted(q: AffinePoint, digest: seq<Byte>, der: seq<Byte>)
    requires EcDer.NotAnEncoding(der)
    ensures !AcceptedSignature(q, digest, der)
  {
    hide EcDer.Encoded;
    hide EcDer.Encodable;
    hide Verifies;
  }

  lemma OnlySignature(q: AffinePoint, digest: seq<Byte>, der: seq<Byte>, sig: EcDer.Signature)
    requires EcDer.MinimalPair(sig) && EcDer.Encodable(sig) && der == EcDer.Encoded(sig)
    ensures AcceptedSignature(q, digest, der) <==> Verifies(q, Be(digest), Be(sig.r), Be(sig.s))
    ensures BigInt.IsMinimalBe(sig.r, Be(sig.r)) && BigInt.IsMinimalBe(sig.s, Be(sig.s))
  {
    hide EcDer.Encoded;
    hide EcDer.Encodable;
    hide Verifies;
    if AcceptedSignature(q, digest, der) {
      var other: EcDer.Signature :| EcDer.MinimalPair(other) && EcDer.Encodable(other) && der == EcDer.Encoded(other)
        && Verifies(q, Be(digest), Be(other.r), Be(other.s));
      EcDer.EncodedInjective(sig, other);
    }
    MinimalIsMinimal(sig.r);
    MinimalIsMinimal(sig.s);
  }

  lemma MinimalIsMinimal(v: seq<Byte>)
    requires EcDer.IsMinimal(v)
    ensures BigInt.IsMinimalBe(v, Be(v))
  {
    if v[0] == 0 {
      assert v == [0];
      BeOne(0);
    } else {
      BeLeading(v);
    }
  }

  /** The equation on the parsed numbers. */
  method VerifyPair(point: P256Point, digest: seq<Byte>, rBytes: seq<Byte>, sBytes: seq<Byte>) returns (valid: bool)
    requires GroupOfPrimeOrder() && |digest| == 32 && ValidPoint(point)
    requires BigInt.IsMinimalBe(rBytes, Be(rBytes)) && BigInt.IsMinimalBe(sBytes, Be(sBytes))
    ensures valid <==> Verifies(Coordinates(point), Be(digest), Be(rBytes), Be(sBytes))
  {
    hide *;
    UseGroup();
    BasePoint();
    ValidIsOnCurve(point);
    ghost var q := Coordinates(point);
    VerifiesCases(q, Be(digest), Be(rBytes), Be(sBytes));
    ScalarFits(rBytes);
    ScalarFits(sBytes);
    DigestFits(digest);
    var rValid := ScalarIsValidNonzero(rBytes);
    if !rValid {
      return false;
    }
    var sValid := ScalarIsValidNonzero(sBytes);
    if !sValid {
      return false;
    }
    var w := ScalarInverse(sBytes);
    MinimalValue(w.value, FInv(N, Be(sBytes)));
    ScalarFits(w.value);
    var u1 := ScalarMultiplyMod(digest, w.value);
    ProductResidue(Be(digest), Be(w.value));
    MinimalValue(u1.value, FMul(N, Be(digest), Be(w.value)));
    var u2 := ScalarMultiplyMod(rBytes, w.value);
    ProductResidue(Be(rBytes), Be(w.value));
    MinimalValue(u2.value, FMul(N, Be(rBytes), Be(w.value)));
    var u1G := BasePointMultiplyWindowed(u1.value);
    var u2Q := ScalarMultiplyBranchFree(u2.value, point);
    MultipleFacts(u1.value, G);
    MultipleFacts(u2.value, q);
    var sum := PointAdd(u1G.value, u2Q.value);
    SumIsOnCurve(Mul(CURVE, Be(u1.value), G), Mul(CURVE, Be(u2.value), q));
    EncodedFacts(Add(CURVE, Mul(CURVE, Be(u1.value), G), Mul(CURVE, Be(u2.value), q)));
    if sum.value.infinity {
      return false;
    }
    var x := XModOrder(sum.value);
    SameBytes(x.value, rBytes, Add(CURVE, Mul(CURVE, Be(u1.value), G), Mul(CURVE, Be(u2.value), q)).x % N);
    valid := x.value == rBytes;
  }

  lemma ValidIsOnCurve(point: P256Point)
    requires ValidPoint(point)
    ensures OnCurve(CURVE, Coordinates(point)) && !point.infinity
  {
    hide OnCurve;
  }

  lemma VerifiesCases(q: AffinePoint, e: int, r: int, s: int)
    ensures !(0 < r < N && 0 < s < N) ==> !Verifies(q, e, r, s)
    ensures 0 < r < N && 0 < s < N ==>
              var w := FInv(N, s);
              && FMul(N, e, w) >= 0 && FMul(N, r, w) >= 0
              && var sum := Add(CURVE, Mul(CURVE, FMul(N, e, w), G), Mul(CURVE, FMul(N, r, w), q));
                 Verifies(q, e, r, s) <==> !sum.infinity && sum.x % N == r
  {
    hide Mul;
    hide Add;
    hide FMul;
    hide FInv;
  }

  lemma MultipleFacts(k: seq<Byte>, q: AffinePoint)
    requires GroupLaw() && OnCurve(CURVE, q)
    ensures var point, m := Multiple(k, q), Mul(CURVE, Be(k), q);
            (point.infinity || ValidPoint(point)) && Coordinates(point) == m && OnCurve(CURVE, m)
  {
    GroupIsCurve();
    MulOnCurve(CURVE, Be(k), q);
    MultipleIs(k, q);
    EncodingBijective(Mul(CURVE, Be(k), q));
    hide Mul;
    hide Be;
    hide ToBe;
    hide SatisfiesEquation;
  }

  lemma SumIsOnCurve(q: AffinePoint, r: AffinePoint)
    requires GroupLaw() && OnCurve(CURVE, q) && OnCurve(CURVE, r)
    ensures OnCurve(CURVE, Add(CURVE, q, r))
  {
    GroupIsCurve();
    AddOnCurve(CURVE, q, r);
  }

  lemma EncodedFacts(q: AffinePoint)
    requires OnCurve(CURVE, q)
    ensures q.infinity || (q.x >= 0 && q.y >= 0)
    ensures Encode(q).infinity <==> q.infinity
    ensures !q.infinity ==> ValidPoint(Encode(q)) && Coordinates(Encode(q)) == q && q.x % N >= 0
  {
    OrderPositive();
    hide N;
    PointNonnegative(q);
    EncodingBijective(q);
    hide Be;
    hide ToBe;
    hide SatisfiesEquation;
  }

  lemma SameBytes(a: seq<Byte>, b: seq<Byte>, n: int)
    requires n >= 0 && BigInt.IsMinimalBe(a, n) && BigInt.IsMinimalBe(b, Be(b))
    ensures a == b <==> n == Be(b)
  {
    if n == Be(b) {
      BigInt.MinimalBeUnique(a, b, n);
    }
  }

  // ----- completeness -----

  /** Every signature that signing returns verifies under the public key of the same scalar, and its
      s is at most (n - 1) / 2. */
  lemma SignatureAccepted(hmac: Hmac, privateScalar: seq<Byte>, digest: seq<Byte>)
    requires GroupOfPrimeOrder() && SigningPair(hmac, privateScalar, digest).Some?
    ensures var pair := SigningPair(hmac, privateScalar, digest).value;
            AcceptedSignature(Mul(CURVE, Be(privateScalar), G), digest, SignatureDer(pair)) && 1 <= pair.s <= HALF_ORDER
  {
    hide *;
    UseGroup();
    OrderPositive();
    var pair := SigningPair(hmac, privateScalar, digest).value;
    SigningPairIs(hmac, privateScalar, digest);
    AttemptsVerify(hmac, FirstState(hmac, privateScalar, ToBe(Be(digest) % N, 32)), Be(privateScalar), Be(digest), 16);
    PairAccepted(Mul(CURVE, Be(privateScalar), G), digest, pair);
  }

  lemma PairAccepted(q: AffinePoint, digest: seq<Byte>, pair: ScalarPair)
    requires 0 <= pair.r < N && 0 <= pair.s < N && Verifies(q, Be(digest), pair.r, pair.s)
    ensures AcceptedSignature(q, digest, SignatureDer(pair))
  {
    hide *;
    RadixFits();
    BeOfToBe(pair.r, 32);
    BeOfToBe(pair.s, 32);
    ShortIsEncodable(ToBe(pair.r, 32), ToBe(pair.s, 32));
    var sig := EcDer.Signature(ToBe(pair.r, 32), ToBe(pair.s, 32));
    EcDer.EncodedOfStripped(sig);
    StrippedValue(sig);
    SignatureDerIs(pair);
    IsAccepted(q, digest, EcDer.Stripped(sig), SignatureDer(pair));
  }

  lemma StrippedValue(sig: EcDer.Signature)
    ensures Be(EcDer.Stripped(sig).r) == Be(sig.r) && Be(EcDer.Stripped(sig).s) == Be(sig.s)
  {
    BeStripZeros(sig.r);
    BeStripZeros(sig.s);
    BeOne(0);
  }

  lemma SignatureDerIs(pair: ScalarPair)
    requires 0 <= pair.r && 0 <= pair.s
    ensures EcDer.Encodable(EcDer.Signature(ToBe(pair.r, 32), ToBe(pair.s, 32)))
    ensures SignatureDer(pair) == EcDer.Encoded(EcDer.Signature(ToBe(pair.r, 32), ToBe(pair.s, 32)))
  {
    ShortIsEncodable(ToBe(pair.r, 32), ToBe(pair.s, 32));
    hide EcDer.Encoded;
    hide EcDer.Encodable;
  }

  lemma IsAccepted(q: AffinePoint, digest: seq<Byte>, sig: EcDer.Signature, der: seq<Byte>)
    requires EcDer.MinimalPair(sig) && EcDer.Encodable(sig) && der == EcDer.Encoded(sig)
    requires Verifies(q, Be(digest), Be(sig.r), Be(sig.s))
    ensures AcceptedSignature(q, digest, der)
  {
    hide Verifies;
    hide EcDer.Encoded;
    hide EcDer.Encodable;
  }

  /** Signing, then verifying with the public key of the scalar, answers yes. */
  method SignThenVerify(hmac: Hmac, privateScalar: seq<Byte>, digest: seq<Byte>) returns (r: Result<bool>)
    requires GroupOfPrimeOrder() && |digest| == 32 && 0 < Be(privateScalar) < N
    ensures r == if SigningPair(hmac, privateScalar, digest).None? then Err(ProviderError) else Ok(true)
  {
    hide *;
    UseGroup();
    BasePoint();
    var signature := SignDigest(hmac, privateScalar, digest);
    if signature.Err? {
      return Err(signature.error);
    }
    SignatureAccepted(hmac, privateScalar, digest);
    var publicKey := BasePointMultiplyWindowed(privateScalar);
    MultipleFacts(privateScalar, G);
    PublicKeyFinite(Be(privateScalar));
    MultipleShape(privateScalar);
    ShortDer(SigningPair(hmac, privateScalar, digest).value);
    r := VerifyDigest(publicKey.value.x, publicKey.value.y, signature.value, digest);
  }

  lemma ShortDer(pair: ScalarPair)
    requires 0 <= pair.r && 0 <= pair.s
    ensures |SignatureDer(pair)| < EcDer.SIZE_LIMIT
  {
    ShortIsEncodable(ToBe(pair.r, 32), ToBe(pair.s, 32));
    hide EcDer.Encoded;
    hide EcDer.Encodable;
  }

  lemma MultipleShape(k: seq<Byte>)
    requires GroupLaw() && OnCurve(CURVE, G) && !Mul(CURVE, Be(k), G).infinity
    ensures var point := Multiple(k, G); !point.infinity && point == P256Point(point.x, point.y, false)
  {
    MultipleIs(k, G);
    hide Mul;
    hide ToBe;
    hide Be;
  }

  /** d * G is finite for d in [1, n-1], since n is prime and G is not the neutral element. */
  lemma PublicKeyFinite(d: nat)
    requires GroupOfPrimeOrder() && 0 < d < N
    ensures !Mul(CURVE, d, G).infinity
  {
    hide *;
    UseGroup();
    BasePoint();
    MulOnCurve(CURVE, d, G);
    if Mul(CURVE, d, G).infinity {
      var i := FInv(N, d);
      Inverts(d);
      InfinityIs(Mul(CURVE, d, G));
      MulMul(CURVE, G, i, d);
      MulOfInfinity(CURVE, i);
      MulModOrder(CURVE, G, N, i * d);
      OneModOrder(d, i);
      MulOne(CURVE, G);
      assert false by { BasePointFinite(); }
    }
  }

  lemma InfinityIs(q: AffinePoint)
    requires OnCurve(CURVE, q) && q.infinity
    ensures q == INFINITY
  {
  }

  lemma OneModOrder(d: int, i: int)
    requires Cong(d * i, 1, N)
    ensures (i * d) % N == 1
  {
    ModSmall(1, N);
    assert i * d == d * i;
  }

  lemma BasePointFinite()
    ensures G != INFINITY
  {
  }
}
