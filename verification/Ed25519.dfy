/** Ed25519 signatures, `src/ed25519.cpp` (sections 5.1.6 and 5.1.7 of RFC 8032). */
module Ed25519 {
  import opened NumberTheory
  import opened Digits
  import opened Words256
  import opened PrimeField
  import opened Edwards
  import opened EdwardsExtended
  import opened Ed25519Points
  import opened Ed25519Big
  import opened Results
  import ByteLoops

  type Sha512 = seq<Byte> -> seq<Byte>

  ghost predicate DigestSized(sha512: Sha512) {
    forall m :: |sha512(m)| == 64
  }

  /** What is taken from outside: 2^255 - 19 is prime, addition is associative, and L * B = 0. */
  ghost predicate GroupFacts() {
    IsPrime(P) && Associative(CURVE) && Mul(CURVE, L, B) == IDENTITY
  }

  lemma UseGroup()
    requires GroupFacts()
    ensures IsPrime(P) && IsEdwards(CURVE) && CURVE.p > 2 && Associative(CURVE) && Mul(CURVE, L, B) == IDENTITY
    ensures OnCurve(CURVE, B) && L > 0
  {
    CurveFacts();
    BasePointOnCurve();
    hide Mul;
    hide IsPrime;
    hide Associative;
    hide OnCurve;
  }

  // ----- scalars -----

  function ScalarBit(littleEndian: seq<Byte>, bit: nat): nat {
    if bit / 8 < |littleEndian| then Bit(littleEndian[bit / 8], bit % 8) else 0
  }

  lemma FromLeHead(s: seq<Byte>)
    requires |s| > 0
    ensures FromLe(s) == s[0] + 256 * FromLe(s[1..])
  {
    assert Reverse(s) == Reverse(s[1..]) + [s[0]];
    BeSnoc(Reverse(s[1..]), s[0]);
  }

  /** Reading a bit of a byte reads that bit of the number. */
  lemma {:induction false} ScalarBitIsBit(s: seq<Byte>, bit: nat)
    ensures ScalarBit(s, bit) == Bit(FromLe(s), bit)
    decreases |s|
  {
    hide Bit;
    hide FromLe;
    if |s| == 0 {
      EmptyBit(s, bit);
    } else {
      FromLeHead(s);
      if bit < 8 {
        BitOfLowByte(FromLe(s[1..]), s[0], bit);
      } else {
        ScalarBitIsBit(s[1..], bit - 8);
        BitOfHighBytes(FromLe(s[1..]), s[0], bit);
        assert (bit - 8) / 8 == bit / 8 - 1 && (bit - 8) % 8 == bit % 8;
      }
    }
  }

  lemma EmptyBit(s: seq<Byte>, bit: nat)
    requires |s| == 0
    ensures Bit(FromLe(s), bit) == 0
  {
    PowPositive(2, bit);
    ModSmall(0, Pow(2, bit));
  }

  /** Double and add over all bits, least significant first: the multiple by the number. */
  method ScalarMultiply(scalar: seq<Byte>, point: BigPoint, ghost q: EdPoint) returns (r: BigPoint)
    requires GroupFacts() && OnCurve(CURVE, q) && Represents(CURVE, ExtendedOf(point), q)
    ensures Represents(CURVE, ExtendedOf(r), Mul(CURVE, FromLe(scalar), q))
  {
    hide *;
    UseGroup();
    ghost var k := FromLe(scalar);
    StartLadder(k, ExtendedOf(point), q);
    r := Identity();
    var addend := point;
    for bit := 0 to 8 * |scalar|
      invariant Pow(2, bit) > 0 && k % Pow(2, bit) >= 0
      invariant Represents(CURVE, ExtendedOf(r), Mul(CURVE, k % Pow(2, bit), q))
      invariant Represents(CURVE, ExtendedOf(addend), Mul(CURVE, Pow(2, bit), q))
    {
      ScalarBitIsBit(scalar, bit);
      BitCases(k, bit);
      LadderStep(CURVE, q, k, bit, ExtendedOf(r), ExtendedOf(addend));
      if ScalarBit(scalar, bit) != 0 {
        r := AddPoints(r, addend);
      }
      addend := AddPoints(addend, addend);
    }
    WholeScalar(scalar);
  }

  lemma BitCases(k: nat, bit: nat)
    ensures Bit(k, bit) == 0 || Bit(k, bit) == 1
  {
    hide Pow;
  }

  lemma StartLadder(k: nat, point: ExtendedPoint, q: EdPoint)
    requires IsEdwards(CURVE) && CURVE.p > 2 && OnCurve(CURVE, q) && Represents(CURVE, point, q)
    ensures Pow(2, 0) == 1 && k % 1 == 0
    ensures Represents(CURVE, EXTENDED_IDENTITY, Mul(CURVE, 0, q))
    ensures Represents(CURVE, point, Mul(CURVE, 1, q))
  {
    hide IsEdwards;
    hide OnCurve;
    MulStep(CURVE, 0, q);
    MulOne(CURVE, q);
  }

  lemma WholeScalar(scalar: seq<Byte>)
    ensures Pow(2, 8 * |scalar|) > 0 && FromLe(scalar) % Pow(2, 8 * |scalar|) == FromLe(scalar)
  {
    FromLeBound(scalar);
    ByteLoops.Pow256(|scalar|);
    ModSmall(FromLe(scalar), Pow(2, 8 * |scalar|));
  }

  // ----- the base point -----

  const BASE_POINT_BYTES: seq<Byte> := [
    0x58, 0x66, 0x66, 0x66, 0x66, 0x66, 0x66, 0x66, 0x66, 0x66, 0x66, 0x66, 0x66, 0x66, 0x66, 0x66,
    0x66, 0x66, 0x66, 0x66, 0x66, 0x66, 0x66, 0x66, 0x66, 0x66, 0x66, 0x66, 0x66, 0x66, 0x66, 0x66]

  lemma {:induction false} RepeatedByte(s: seq<Byte>)
    requires forall i :: 0 <= i < |s| ==> s[i] == 0x66
    ensures 5 * Be(s) == 2 * (Pow(256, |s|) - 1)
    decreases |s|
  {
    if |s| > 0 {
      RepeatedByte(s[..|s| - 1]);
    }
  }

  /** The bytes decode to the standard base point. */
  lemma BasePointDecodes()
    requires IsPrime(P)
    ensures DecodePoint(BASE_POINT_BYTES) == Ok(MakeAffinePoint(CURVE, B.x, B.y))
  {
    hide IsPrime;
    BasePointOnCurve();
    BasePointBytes();
    DecodeOfCompress(B);
  }

  lemma BasePointBytes()
    ensures CURVE.p > 1 && B.y >= 0 && Compress(B) == BASE_POINT_BYTES
  {
    BasePointNumber();
    FieldFacts();
    hide Spelled;
    ToLeOfFromLe(BASE_POINT_BYTES);
    hide ToLe;
    hide FromLe;
  }

  lemma BasePointNumber()
    ensures FromLe(BASE_POINT_BYTES) == BY && BX % 2 == 0
  {
    HighBytes();
    FromLeHead(BASE_POINT_BYTES);
    TopPower();
    ConstantValues();
    hide Spelled;
    hide Pow;
    hide FromLe;
  }

  lemma HighBytes()
    ensures 5 * FromLe(BASE_POINT_BYTES[1..]) == 2 * (Pow(256, 31) - 1)
  {
    var high := BASE_POINT_BYTES[1..];
    assert forall i :: 0 <= i < |high| ==> high[i] == 0x66;
    assert forall i :: 0 <= i < 31 ==> Reverse(high)[i] == 0x66;
    RepeatedByte(Reverse(high));
  }

  // ----- signing -----

  /** Clears the low three bits and the top bit and sets the one below it. */
  function Clamped(scalar: seq<Byte>): seq<Byte>
    requires |scalar| == 32
  {
    scalar[0 := scalar[0] - scalar[0] % 8][31 := scalar[31] % 64 + 64]
  }

  method ClampScalar(scalar: array<Byte>)
    requires scalar.Length == 32
    modifies scalar
    ensures scalar[..] == Clamped(old(scalar[..]))
    ensures Pow(2, 254) > 0
         && FromLe(scalar[..]) == Pow(2, 254) + FromLe(old(scalar[..])) % Pow(2, 254) - FromLe(old(scalar[..])) % 8
  {
    ClampedNumber(scalar[..]);
    hide FromLe;
    scalar[0] := scalar[0] - scalar[0] % 8;
    scalar[31] := scalar[31] % 64;
    BitOrCommutes(scalar[31], 64);
    SixthPower();
    BitOrShifted(scalar[31], 1, 6);
    hide BitOr;
    hide Pow;
    scalar[31] := BitOr(scalar[31], 64);
  }

  lemma SixthPower()
    ensures Pow(2, 6) == 64
  {
  }

  /** The clamped number: the low 254 bits without the lowest three, and bit 254 set. */
  lemma ClampedNumber(scalar: seq<Byte>)
    requires |scalar| == 32
    ensures Pow(2, 254) > 0
         && FromLe(Clamped(scalar)) == Pow(2, 254) + FromLe(scalar) % Pow(2, 254) - FromLe(scalar) % 8
  {
    hide *;
    var c := Clamped(scalar);
    ClampedShape(scalar);
    FromLeTop(c);
    FromLeTop(scalar);
    FromLeHead(scalar);
    FromLeHead(scalar[..31]);
    FromLeHead(c[..31]);
    FromLeBound(scalar[..31]);
    ModAddMultiple(scalar[0], 32 * FromLe(scalar[1..]), 8);
    Power254();
    PowPositive(256, 31);
    LowBits(scalar[31], Pow(256, 31), FromLe(scalar[..31]));
  }

  lemma ClampedShape(scalar: seq<Byte>)
    requires |scalar| == 32
    ensures var c := Clamped(scalar);
            |c| == 32 && c[31] == scalar[31] % 64 + 64 && c[0] == scalar[0] - scalar[0] % 8
            && c[..31][0] == c[0] && c[..31][1..] == scalar[..31][1..]
  {
  }

  lemma Power254()
    ensures Pow(2, 254) == 64 * Pow(256, 31)
  {
    ByteLoops.Pow256(31);
    PowAdd(2, 6, 248);
    SixthPower();
  }

  lemma LowBits(b: Byte, p: int, low: int)
    requires 0 <= low < p
    ensures (b * p + low) % (64 * p) == (b % 64) * p + low
    ensures (b % 64 + 64) * p == (b % 64) * p + 64 * p
  {
    MulBound(0, b % 64, p, p);
    MulBound(b % 64, 63, p, p);
    assert b == (b / 64) * 64 + b % 64;
    assert b * p == (b / 64) * (64 * p) + (b % 64) * p;
    DivModUnique(b * p + low, 64 * p, b / 64, (b % 64) * p + low);
  }

  /** A clamped scalar is a multiple of 8 in [2^254, 2^255). */
  lemma ClampedRange(scalar: seq<Byte>)
    requires |scalar| == 32
    ensures FromLe(Clamped(scalar)) % 8 == 0
    ensures 64 * Pow(256, 31) <= FromLe(Clamped(scalar)) < 128 * Pow(256, 31)
  {
    hide *;
    var c := Clamped(scalar);
    ClampedBytes(scalar);
    FromLeHead(c);
    FromLeTop(c);
    FromLeBound(c[..31]);
    LowBitsClear(c[0], FromLe(c[1..]));
    TopByteRange(c[31], Pow(256, 31), FromLe(c[..31]));
  }

  lemma ClampedBytes(scalar: seq<Byte>)
    requires |scalar| == 32
    ensures |Clamped(scalar)| == 32 && Clamped(scalar)[0] % 8 == 0 && 64 <= Clamped(scalar)[31] <= 127
  {
  }

  lemma LowBitsClear(b: int, rest: int)
    requires b % 8 == 0
    ensures (b + 256 * rest) % 8 == 0
  {
    ModAddMultiple(b, 32 * rest, 8);
  }

  lemma TopByteRange(b: int, p: int, low: int)
    requires 64 <= b <= 127 && 0 <= low < p
    ensures 64 * p <= b * p + low < 128 * p
  {
    MulBound(64, b, p, p);
    MulBound(b, 127, p, p);
  }

  function SecretScalar(sha512: Sha512, seed: seq<Byte>): seq<Byte>
    requires |sha512(seed)| == 64
  {
    Clamped(sha512(seed)[..32])
  }

  function PublicPoint(sha512: Sha512, seed: seq<Byte>): EdPoint
    requires |sha512(seed)| == 64
  {
    Mul(CURVE, FromLe(SecretScalar(sha512, seed)), B)
  }

  function Nonce(sha512: Sha512, seed: seq<Byte>, message: seq<Byte>): nat
    requires |sha512(seed)| == 64
  {
    ReduceModOrder(sha512(sha512(seed)[32..] + message))
  }

  function Challenge(sha512: Sha512, r: seq<Byte>, publicKey: seq<Byte>, message: seq<Byte>): nat {
    ReduceModOrder(sha512(r + publicKey + message))
  }

  lemma MulCoordinates(k: nat)
    requires GroupFacts()
    ensures OnCurve(CURVE, Mul(CURVE, k, B)) && Mul(CURVE, k, B).y >= 0
  {
    hide *;
    UseGroup();
    MulOnCurve(CURVE, k, B);
    InCurve(Mul(CURVE, k, B));
  }

  /** R, then S = r + h a modulo L, in 64 bytes. */
  function Signature(sha512: Sha512, seed: seq<Byte>, message: seq<Byte>): seq<Byte>
    requires GroupFacts() && |sha512(seed)| == 64
  {
    hide *;
    var a := FromLe(SecretScalar(sha512, seed));
    MulCoordinates(a);
    MulCoordinates(Nonce(sha512, seed, message));
    PublicPointIs(sha512, seed);
    UseGroup();
    var publicKey := Compress(PublicPoint(sha512, seed));
    var r := Nonce(sha512, seed, message);
    var rEncoded := Compress(Mul(CURVE, r, B));
    var h := Challenge(sha512, rEncoded, publicKey, message);
    rEncoded + ToLe(FAdd(L, r, FMul(L, h, a)), 32)
  }

  lemma PublicPointIs(sha512: Sha512, seed: seq<Byte>)
    requires |sha512(seed)| == 64
    ensures CURVE.p > 1 && PublicPoint(sha512, seed) == Mul(CURVE, FromLe(SecretScalar(sha512, seed)), B)
  {
    hide Mul;
  }

  /** Encoding the result of a multiplication compresses the affine multiple. */
  method MultiplyAndEncode(scalar: seq<Byte>, point: BigPoint, ghost q: EdPoint) returns (r: seq<Byte>)
    requires GroupFacts() && OnCurve(CURVE, q) && Represents(CURVE, ExtendedOf(point), q)
    ensures Mul(CURVE, FromLe(scalar), q).y >= 0 && r == Compress(Mul(CURVE, FromLe(scalar), q))
  {
    hide *;
    UseGroup();
    var product := ScalarMultiply(scalar, point, q);
    MulOnCurve(CURVE, FromLe(scalar), q);
    InCurve(Mul(CURVE, FromLe(scalar), q));
    EncodeIsCompress(ExtendedOf(product), Mul(CURVE, FromLe(scalar), q));
    r := Encode(product);
  }

  /** The base point, decoded from its bytes. */
  method BasePoint() returns (r: BigPoint)
    requires GroupFacts()
    ensures OnCurve(CURVE, B) && Represents(CURVE, ExtendedOf(r), B)
  {
    hide *;
    UseGroup();
    BasePointDecodes();
    BaseRepresents();
    var base := Decode(BASE_POINT_BYTES);
    r := base.value;
  }

  method SignSeed(sha512: Sha512, seed: seq<Byte>, message: seq<Byte>) returns (r: Result<seq<Byte>>)
    requires GroupFacts()
    ensures |seed| != 32 ==> r == Err(InvalidKey)
    ensures |seed| == 32 && |sha512(seed)| != 64 ==> r == Err(InternalError)
    ensures |seed| == 32 && |sha512(seed)| == 64 ==> r == Ok(Signature(sha512, seed, message))
  {
    hide *;
    if |seed| != 32 {
      return Err(InvalidKey);
    }
    var digest := sha512(seed);
    if |digest| != 64 {
      return Err(InternalError);
    }
    var scalar := new Byte[32](i requires 0 <= i < 32 && |digest| == 64 => digest[i]);
    assert scalar[..] == digest[..32];
    ClampScalar(scalar);
    var scalarBytes := scalar[..];
    assert scalarBytes == SecretScalar(sha512, seed) by { SecretScalarIs(sha512, seed); }
    UseGroup();
    var base := BasePoint();
    var publicKey := MultiplyAndEncode(scalarBytes, base, B);
    PublicPointIs(sha512, seed);
    var nonce := ReduceToOrder(sha512(digest[32..] + message));
    ResidueBytes(sha512(digest[32..] + message));
    var nonceBytes := ToFixedLeBytes(nonce, 32);
    var rEncoded := MultiplyAndEncode(nonceBytes.value, base, B);
    var h := ReduceToOrder(sha512(rEncoded + publicKey + message));
    var a := FromLeBytes(scalarBytes);
    var hTimesA := MultiplyModOrder(h, a);
    var s := AddModOrder(nonce, hTimesA);
    ResidueFits(nonce.Value(), hTimesA.Value());
    OrderFits();
    var sBytes := ToFixedLeBytes(s, 32);
    SignatureIs(sha512, seed, message, publicKey, rEncoded);
    r := Ok(rEncoded + sBytes.value);
  }

  lemma SecretScalarIs(sha512: Sha512, seed: seq<Byte>)
    requires |sha512(seed)| == 64
    ensures SecretScalar(sha512, seed) == Clamped(sha512(seed)[..32])
  {
  }

  lemma BaseRepresents()
    requires IsPrime(P)
    ensures CURVE.p > 1 && Represents(CURVE, MakeAffinePoint(CURVE, B.x, B.y), B)
  {
    BasePointOnCurve();
    hide IsPrime;
    hide Cong;
    AffineRepresents(CURVE, B);
  }

  /** A residue modulo L fits 32 bytes. */
  lemma ResidueBytes(bytes: seq<Byte>)
    ensures ReduceModOrder(bytes) < L && ReduceModOrder(bytes) < Pow(256, 32)
    ensures FromLe(ToLe(ReduceModOrder(bytes), 32)) == ReduceModOrder(bytes)
  {
    hide FromLe;
    OrderFits();
    FromLeOfToLe(ReduceModOrder(bytes), 32);
  }

  lemma OrderFits()
    ensures 0 < L < Pow(256, 32)
  {
    TopPower();
    PowStep(256, 31);
    hide Pow;
    ConstantValues();
    hide Spelled;
  }

  lemma SignatureIs(sha512: Sha512, seed: seq<Byte>, message: seq<Byte>, publicKey: seq<Byte>, rEncoded: seq<Byte>)
    requires GroupFacts() && |sha512(seed)| == 64
    requires PublicPoint(sha512, seed).y >= 0 && publicKey == Compress(PublicPoint(sha512, seed))
    requires var r := ReduceModOrder(sha512(sha512(seed)[32..] + message));
             CURVE.p > 1 && Mul(CURVE, r, B).y >= 0 && rEncoded == Compress(Mul(CURVE, r, B))
    ensures var r := ReduceModOrder(sha512(sha512(seed)[32..] + message));
            var h := ReduceModOrder(sha512(rEncoded + publicKey + message));
            L > 0 && FAdd(L, r, FMul(L, h, FromLe(SecretScalar(sha512, seed)))) >= 0
            && Signature(sha512, seed, message)
               == rEncoded + ToLe(FAdd(L, r, FMul(L, h, FromLe(SecretScalar(sha512, seed)))), 32)
  {
    hide GroupFacts;
    hide Mul;
    hide ReduceModOrder;
    hide FromLe;
    hide Compress;
    hide ToLe;
    hide FAdd;
    hide FMul;
    hide PublicPoint;
  }

  lemma FromLeInjective(s: seq<Byte>, t: seq<Byte>)
    requires |s| == |t| && FromLe(s) == FromLe(t)
    ensures s == t
  {
    ToLeOfFromLe(s);
    ToLeOfFromLe(t);
  }

  /** The signature in numbers (section 5.1.6 of RFC 8032): R encodes r B and S = r + h a modulo L, where
      the secret a is the clamped half of the hashed seed. */
  lemma SignatureNumbers(sha512: Sha512, seed: seq<Byte>, message: seq<Byte>, a: nat, r: nat, publicKey: seq<Byte>)
    requires GroupFacts() && |sha512(seed)| == 64 && Pow(2, 254) > 0 && L > 0 && CURVE.p > 1
    requires a == Pow(2, 254) + FromLe(sha512(seed)[..32]) % Pow(2, 254) - FromLe(sha512(seed)[..32]) % 8
    requires r == FromLe(sha512(sha512(seed)[32..] + message)) % L
    requires var q := Mul(CURVE, a, B);
             |publicKey| == 32 && FromLe(publicKey) == q.y + Pow(2, 255) * (q.x % 2)
    ensures var s, q := Signature(sha512, seed, message), Mul(CURVE, r, B);
            && |s| == 64 && FromLe(s[..32]) == q.y + Pow(2, 255) * (q.x % 2)
            && FromLe(s[32..]) == (r + FromLe(sha512(s[..32] + publicKey + message)) * a) % L
  {
    hide *;
    ClampedNumber(sha512(seed)[..32]);
    SecretScalarIs(sha512, seed);
    PublicPointIs(sha512, seed);
    MulCoordinates(a);
    MulCoordinates(r);
    CompressNumber(Mul(CURVE, a, B));
    CompressNumber(Mul(CURVE, r, B));
    ResidueIs(sha512(sha512(seed)[32..] + message));
    var key, rEncoded := Compress(Mul(CURVE, a, B)), Compress(Mul(CURVE, r, B));
    FromLeInjective(publicKey, key);
    SignatureIs(sha512, seed, message, key, rEncoded);
    var hash := sha512(rEncoded + key + message);
    ResidueIs(hash);
    var scalar := FAdd(L, r, FMul(L, ReduceModOrder(hash), a));
    ResponseIs(r, FromLe(hash), a);
    OrderFits();
    FromLeOfToLe(scalar, 32);
    var s := rEncoded + ToLe(scalar, 32);
    assert s[..32] == rEncoded && s[32..] == ToLe(scalar, 32);
  }

  lemma ResidueIs(bytes: seq<Byte>)
    ensures L > 0 && ReduceModOrder(bytes) == FromLe(bytes) % L
  {
    OrderFits();
  }

  /** Reducing the challenge first changes nothing. */
  lemma ResponseIs(r: nat, h: nat, a: nat)
    ensures L > 0 && 0 <= FAdd(L, r, FMul(L, h % L, a)) < L && FAdd(L, r, FMul(L, h % L, a)) == (r + h * a) % L
  {
    OrderFits();
    hide Cong;
    hide FMul;
    hide FAdd;
    CongMod(h, L);
    CongSelf(a, L);
    CongSelf(r, L);
    FMulCong(L, h % L, h, a, a);
    FAddCong(L, r, r, FMul(L, h % L, a), h * a);
    SameResidue(FAdd(L, r, FMul(L, h % L, a)), r + h * a);
  }

  lemma SameResidue(x: int, y: int)
    requires 0 <= x < L && Cong(x, y, L)
    ensures x == y % L
  {
    ModSmall(x, L);
  }

  // ----- verifying -----

  ghost predicate Decodes(encoded: seq<Byte>, q: EdPoint) {
    OnCurve(CURVE, q) && q.y >= 0 && encoded == Compress(q)
  }

  /** S < L, A and R decode, and S B = R + h A holds in the group. */
  ghost predicate Accepts(sha512: Sha512, publicKey: seq<Byte>, signature: seq<Byte>, message: seq<Byte>)
    requires |signature| == 64
  {
    var rEncoded, s := signature[..32], FromLe(signature[32..]);
    s < L && exists r: EdPoint, a: EdPoint ::
      && Decodes(rEncoded, r) && Decodes(publicKey, a)
      && SatisfiesEquation(r, a, s, Challenge(sha512, rEncoded, publicKey, message))
  }

  predicate SatisfiesEquation(r: EdPoint, a: EdPoint, s: nat, h: nat) {
    Mul(CURVE, s, B) == Add(CURVE, r, Mul(CURVE, h, a))
  }

  /** An encoding stands for one point only, so the decoded points decide. */
  lemma AcceptsDecoded(sha512: Sha512, publicKey: seq<Byte>, signature: seq<Byte>, message: seq<Byte>, r: EdPoint, a: EdPoint)
    requires IsPrime(P) && |signature| == 64 && Decodes(signature[..32], r) && Decodes(publicKey, a)
    ensures Accepts(sha512, publicKey, signature, message)
       <==> FromLe(signature[32..]) < L
            && SatisfiesEquation(r, a, FromLe(signature[32..]), Challenge(sha512, signature[..32], publicKey, message))
  {
    hide SatisfiesEquation;
    hide Decodes;
    hide IsPrime;
    hide FromLe;
    hide Challenge;
    forall r': EdPoint | Decodes(signature[..32], r')
      ensures r' == r
    {
      SameDecoded(signature[..32], r, r');
    }
    forall a': EdPoint | Decodes(publicKey, a')
      ensures a' == a
    {
      SameDecoded(publicKey, a, a');
    }
  }

  /** Verification in numbers (section 5.1.7 of RFC 8032): with R and A the points the strings encode,
      S < L and S B = R + h A. */
  lemma AcceptsNumbers(sha512: Sha512, publicKey: seq<Byte>, signature: seq<Byte>, message: seq<Byte>, r: EdPoint, a: EdPoint)
    requires IsPrime(P) && |publicKey| == 32 && |signature| == 64 && OnCurve(CURVE, r) && OnCurve(CURVE, a)
    requires FromLe(signature[..32]) == r.y + Pow(2, 255) * (r.x % 2) && FromLe(publicKey) == a.y + Pow(2, 255) * (a.x % 2)
    requires L > 0 && CURVE.p > 1
    ensures var s, h := FromLe(signature[32..]), FromLe(sha512(signature[..32] + publicKey + message)) % L;
            Accepts(sha512, publicKey, signature, message) == (s < L && Mul(CURVE, s, B) == Add(CURVE, r, Mul(CURVE, h, a)))
  {
    hide *;
    CompressNumber(r);
    CompressNumber(a);
    FromLeInjective(signature[..32], Compress(r));
    FromLeInjective(publicKey, Compress(a));
    DecodesIs(signature[..32], r);
    DecodesIs(publicKey, a);
    AcceptsDecoded(sha512, publicKey, signature, message, r, a);
    ResidueIs(sha512(signature[..32] + publicKey + message));
    ChallengeBytes(sha512, signature[..32], publicKey, message);
    SatisfiesIs(r, a, FromLe(signature[32..]), Challenge(sha512, signature[..32], publicKey, message));
  }

  lemma CompressInjective(q: EdPoint, r: EdPoint)
    requires IsPrime(P) && OnCurve(CURVE, q) && OnCurve(CURVE, r) && q.y >= 0 && r.y >= 0 && Compress(q) == Compress(r)
    ensures q == r
  {
    hide IsPrime;
    hide OnCurve;
    hide Compress;
    hide DecodePoint;
    DecodeOfCompress(q);
    DecodeOfCompress(r);
  }

  /** Where decoding fails there is no point. */
  lemma NothingDecodes(encoded: seq<Byte>, q: EdPoint)
    requires IsPrime(P) && DecodePoint(encoded).Err?
    ensures !Decodes(encoded, q)
  {
    hide IsPrime;
    hide OnCurve;
    hide Compress;
    hide DecodePoint;
    if Decodes(encoded, q) {
      DecodeOfCompress(q);
    }
  }

  lemma RefusedSignature(sha512: Sha512, publicKey: seq<Byte>, signature: seq<Byte>, message: seq<Byte>)
    requires IsPrime(P) && |signature| == 64
    ensures FromLe(signature[32..]) >= L || DecodePoint(signature[..32]).Err? ==> !Accepts(sha512, publicKey, signature, message)
  {
    hide IsPrime;
    hide DecodePoint;
    hide SatisfiesEquation;
    hide Decodes;
    hide FromLe;
    hide Challenge;
    if DecodePoint(signature[..32]).Err? {
      forall r: EdPoint
        ensures !Decodes(signature[..32], r)
      {
        NothingDecodes(signature[..32], r);
      }
    }
  }

  /** A decoded string as a point of the curve and its extended form. */
  lemma DecodedPoint(encoded: seq<Byte>) returns (q: EdPoint)
    requires GroupFacts() && DecodePoint(encoded).Ok?
    ensures CURVE.p > 1 && Represents(CURVE, DecodePoint(encoded).value, q) && OnCurve(CURVE, q)
    ensures Decodes(encoded, q)
  {
    hide *;
    UseGroup();
    q := CompressOfDecode(encoded);
    InCurve(q);
    AffineRepresents(CURVE, q);
    DecodesIs(encoded, q);
  }

  lemma DecodesIs(encoded: seq<Byte>, q: EdPoint)
    requires OnCurve(CURVE, q) && q.y >= 0 && encoded == Compress(q)
    ensures Decodes(encoded, q)
  {
    hide OnCurve;
    hide Compress;
  }

  /** Exactly the signatures that satisfy the equation are accepted, for a public key that decodes. */
  method Verify(sha512: Sha512, publicKey: seq<Byte>, signature: seq<Byte>, message: seq<Byte>)
    returns (r: Result<bool>)
    requires GroupFacts()
    ensures |publicKey| != 32 ==> r == Err(InvalidKey)
    ensures |publicKey| == 32 && |signature| != 64 ==> r == Ok(false)
    ensures |publicKey| == 32 && |signature| == 64 && FromLe(signature[32..]) >= L ==> r == Ok(false)
    ensures |publicKey| == 32 && |signature| == 64 && FromLe(signature[32..]) < L && DecodePoint(publicKey).Err? ==> r == Err(InvalidKey)
    ensures |publicKey| == 32 && |signature| == 64 && DecodePoint(publicKey).Ok? ==>
              r == Ok(Accepts(sha512, publicKey, signature, message))
  {
    hide *;
    if |publicKey| != 32 {
      return Err(InvalidKey);
    }
    if |signature| != 64 {
      return Ok(false);
    }
    UseGroup();
    RefusedSignature(sha512, publicKey, signature, message);
    var sBytes, rEncoded := signature[32..], signature[..32];
    var canonical := ScalarIsCanonical(sBytes);
    if !canonical {
      return Ok(false);
    }
    var publicPoint := Decode(publicKey);
    if publicPoint.Err? {
      return Err(publicPoint.error);
    }
    var rPoint := Decode(rEncoded);
    if rPoint.Err? {
      return Ok(false);
    }
    ghost var h := Challenge(sha512, rEncoded, publicKey, message);
    ChallengeBytes(sha512, rEncoded, publicKey, message);
    var hNumber := ReduceToOrder(sha512(rEncoded + publicKey + message));
    var hBytes := ToFixedLeBytes(hNumber, 32);
    var base := BasePoint();
    var left := ScalarMultiply(sBytes, base, B);
    ghost var a := DecodedPoint(publicKey);
    var hA := ScalarMultiply(hBytes.value, publicPoint.value, a);
    ghost var rp := DecodedPoint(rEncoded);
    var right := AddPoints(rPoint.value, hA);
    EquationDecides(ExtendedOf(left), ExtendedOf(right), ExtendedOf(rPoint.value), ExtendedOf(hA), FromLe(sBytes), h, rp, a);
    AcceptsDecoded(sha512, publicKey, signature, message, rp, a);
    var equal := SamePoint(left, right);
    r := Ok(equal);
  }

  lemma ChallengeBytes(sha512: Sha512, r: seq<Byte>, publicKey: seq<Byte>, message: seq<Byte>)
    ensures Challenge(sha512, r, publicKey, message) == ReduceModOrder(sha512(r + publicKey + message)) < Pow(256, 32)
    ensures FromLe(ToLe(Challenge(sha512, r, publicKey, message), 32)) == Challenge(sha512, r, publicKey, message)
  {
    ResidueBytes(sha512(r + publicKey + message));
    hide FromLe;
    hide ToLe;
    hide ReduceModOrder;
  }

  lemma SameDecoded(encoded: seq<Byte>, q: EdPoint, r: EdPoint)
    requires IsPrime(P) && Decodes(encoded, q) && Decodes(encoded, r)
    ensures q == r
  {
    hide OnCurve;
    hide Compress;
    hide IsPrime;
    CompressInjective(q, r);
  }

  lemma EquationDecides(left: ExtendedPoint, right: ExtendedPoint, rPoint: ExtendedPoint, hA: ExtendedPoint,
                        s: nat, h: nat, rp: EdPoint, a: EdPoint)
    requires GroupFacts() && OnCurve(CURVE, rp) && OnCurve(CURVE, a) && CURVE.p > 1
    requires Represents(CURVE, left, Mul(CURVE, s, B)) && Represents(CURVE, rPoint, rp)
    requires Represents(CURVE, hA, Mul(CURVE, h, a)) && right == PointAdd(CURVE, rPoint, hA)
    ensures PointsEqual(CURVE, left, right) <==> SatisfiesEquation(rp, a, s, h)
  {
    hide *;
    UseGroup();
    MulOnCurve(CURVE, s, B);
    MulOnCurve(CURVE, h, a);
    AddRepresents(CURVE, rPoint, hA, rp, Mul(CURVE, h, a));
    AddOnCurve(CURVE, rp, Mul(CURVE, h, a));
    EqualMeansSamePoint(CURVE, left, right, Mul(CURVE, s, B), Add(CURVE, rp, Mul(CURVE, h, a)));
    SatisfiesIs(rp, a, s, h);
  }

  lemma SatisfiesIs(r: EdPoint, a: EdPoint, s: nat, h: nat)
    ensures CURVE.p > 1
    ensures SatisfiesEquation(r, a, s, h) <==> Mul(CURVE, s, B) == Add(CURVE, r, Mul(CURVE, h, a))
  {
    hide Mul;
    hide Add;
  }

  // ----- completeness -----

  /** (r + h a mod L) B = r B + h (a B). */
  lemma SignatureEquation(r: nat, h: nat, a: nat)
    requires GroupFacts()
    ensures L > 0 && FAdd(L, r, FMul(L, h, a)) >= 0 && CURVE.p > 1
    ensures Mul(CURVE, FAdd(L, r, FMul(L, h, a)), B) == Add(CURVE, Mul(CURVE, r, B), Mul(CURVE, h, Mul(CURVE, a, B)))
  {
    hide *;
    UseGroup();
    MulMul(CURVE, B, h, a);
    MulAdd(CURVE, B, r, h * a);
    MulModOrder(CURVE, B, L, r + h * a);
    ReducedSum(L, r, h, a);
  }

  lemma ReducedSum(m: int, r: int, h: int, a: int)
    requires m > 0
    ensures FAdd(m, r, FMul(m, h, a)) == (r + h * a) % m && FAdd(m, r, FMul(m, h, a)) >= 0
  {
    CongMod(h * a, m);
    CongAdd(r, r, h * a % m, h * a, m);
  }

  /** Every signature verifies under the public key of its seed. */
  lemma SignatureAccepted(sha512: Sha512, seed: seq<Byte>, message: seq<Byte>)
    requires GroupFacts() && |sha512(seed)| == 64
    ensures |Signature(sha512, seed, message)| == 64 && PublicPoint(sha512, seed).y >= 0
    ensures Accepts(sha512, Compress(PublicPoint(sha512, seed)), Signature(sha512, seed, message), message)
  {
    hide *;
    UseGroup();
    PublicPointIs(sha512, seed);
    var a := FromLe(SecretScalar(sha512, seed));
    var r := Nonce(sha512, seed, message);
    MulCoordinates(a);
    MulCoordinates(r);
    var publicKey, rEncoded := Compress(PublicPoint(sha512, seed)), Compress(Mul(CURVE, r, B));
    CompressLength(Mul(CURVE, r, B));
    var h := Challenge(sha512, rEncoded, publicKey, message);
    NonceIs(sha512, seed, message, rEncoded, publicKey);
    SignatureIs(sha512, seed, message, publicKey, rEncoded);
    SignatureEquation(r, h, a);
    var s := FAdd(L, r, FMul(L, h, a));
    ResidueFits(r, FMul(L, h, a));
    var signature := Signature(sha512, seed, message);
    assert signature[..32] == rEncoded && signature[32..] == ToLe(s, 32);
    SatisfiesIs(Mul(CURVE, r, B), PublicPoint(sha512, seed), s, h);
    DecodesIs(rEncoded, Mul(CURVE, r, B));
    DecodesIs(publicKey, PublicPoint(sha512, seed));
    AcceptsDecoded(sha512, publicKey, signature, message, Mul(CURVE, r, B), PublicPoint(sha512, seed));
  }

  lemma CompressLength(q: EdPoint)
    requires q.y >= 0
    ensures |Compress(q)| == 32
  {
    hide ToLe;
  }

  lemma NonceIs(sha512: Sha512, seed: seq<Byte>, message: seq<Byte>, r: seq<Byte>, publicKey: seq<Byte>)
    requires |sha512(seed)| == 64
    ensures Nonce(sha512, seed, message) == ReduceModOrder(sha512(sha512(seed)[32..] + message))
    ensures Challenge(sha512, r, publicKey, message) == ReduceModOrder(sha512(r + publicKey + message))
  {
    hide ReduceModOrder;
  }

  lemma ResidueFits(a: int, b: int)
    ensures L > 0 && 0 <= FAdd(L, a, b) < L && FromLe(ToLe(FAdd(L, a, b), 32)) == FAdd(L, a, b)
    ensures |ToLe(FAdd(L, a, b), 32)| == 32
  {
    hide FromLe;
    hide FAdd;
    OrderFits();
    FromLeOfToLe(FAdd(L, a, b), 32);
  }

  /** Signing, then verifying under the encoded public point, answers yes for every seed and message. */
  method SignThenVerify(sha512: Sha512, seed: seq<Byte>, message: seq<Byte>) returns (r: Result<bool>)
    requires GroupFacts() && DigestSized(sha512) && |seed| == 32
    ensures r == Ok(true)
  {
    assert |sha512(seed)| == 64;
    hide *;
    var signature := SignSeed(sha512, seed, message);
    SignatureAccepted(sha512, seed, message);
    PublicPointIs(sha512, seed);
    UseGroup();
    var base := BasePoint();
    var publicKey := MultiplyAndEncode(SecretScalar(sha512, seed), base, B);
    ghost var a := PublicPoint(sha512, seed);
    MulOnCurve(CURVE, FromLe(SecretScalar(sha512, seed)), B);
    CompressLength(a);
    DecodeOfCompress(a);
    DecodesIs(publicKey, a);
    r := Verify(sha512, publicKey, signature.value, message);
  }
}
