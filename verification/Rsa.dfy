/** The RSA primitives on byte strings, `src/rsa.cpp`. */
module Rsa {
  import opened NumberTheory
  import opened Digits
  import opened ByteLoops
  import opened BigInt
  import opened BigIntPower
  import Fixed = RsaFixedBigInt
  import opened Results
  import opened RsaTheory
  import opened RsaDer

  // ----- output widths -----

  /** Left-pads with zero bytes; refused when the number does not fit. */
  method LeftPadToWidth(value: Big, width: nat) returns (r: Result<seq<Byte>>)
    requires width > 0
    ensures r.Ok? <==> value.Value() < Pow(256, width)
    ensures r.Ok? ==> |r.value| == width && Be(r.value) == value.Value()
  {
    var bytes := ToBeBytes(value);
    BeBound(bytes);
    if |bytes| > width {
      if value.Value() < Pow(256, width) {
        MinimalBeLength(bytes, value.Value(), width);
      }
      return Err(InternalError);
    }
    PowMonotone(256, |bytes|, width);
    if |bytes| == width {
      return Ok(bytes);
    }
    var output := new Byte[width](_ => 0);
    var offset := width - |bytes|;
    for i := 0 to |bytes|
      invariant forall k :: 0 <= k < offset ==> output[k] == 0
      invariant output[offset..offset + i] == bytes[..i]
    {
      output[offset + i] := bytes[i];
    }
    assert output[..] == output[..offset] + bytes;
    BeZeros(output[..offset]);
    BeConcat(output[..offset], bytes);
    r := Ok(output[..]);
  }

  /** Cutting leading bytes off a number that fits the rest loses nothing. */
  lemma BeSuffix(s: seq<Byte>, width: nat)
    requires width <= |s| && Be(s) < Pow(256, width)
    ensures Be(s[|s| - width..]) == Be(s)
  {
    hide Be;
    hide Pow;
    var high, low := s[..|s| - width], s[|s| - width..];
    assert s == high + low;
    BeConcat(high, low);
    PowPositive(256, width);
    NoHighPart(Be(high), Pow(256, width), Be(low));
  }

  lemma NoHighPart(h: nat, p: int, l: nat)
    requires p > 0 && h * p + l < p
    ensures h * p == 0
  {
    MulCancelLess(h, 1, p);
  }

  // ----- the plain operations -----

  /** The public operation, and the shape of every RSA operation: c^exponent mod n at modulus width. */
  method RsaOperation(modulusBytes: seq<Byte>, exponentBytes: seq<Byte>, input: seq<Byte>)
    returns (r: Result<seq<Byte>>)
    ensures r.Ok? <==> Be(exponentBytes) > 0 && Be(input) < Be(modulusBytes)
    ensures r.Ok? ==> r.value == ToBe(Pow(Be(input), Be(exponentBytes)) % Be(modulusBytes), |modulusBytes|)
  {
    var modulus := FromBeBytes(modulusBytes);
    var exponent := FromBeBytes(exponentBytes);
    var representative := FromBeBytes(input);
    ZeroIff(modulus);
    ZeroIff(exponent);
    if modulus.IsZero() || exponent.IsZero() {
      return Err(InvalidKey);
    }
    var order := Compare(representative, modulus);
    if order >= 0 {
      return Err(InvalidArgument);
    }
    var output := ModExp(representative, exponent, modulus);
    r := PadResidue(output.value, modulusBytes);
  }

  /** A residue always fits the bytes of its modulus, and its encoding is then I2OSP. */
  method PadResidue(value: Big, modulusBytes: seq<Byte>) returns (r: Result<seq<Byte>>)
    requires value.Value() < Be(modulusBytes)
    ensures r == Ok(ToBe(value.Value(), |modulusBytes|))
  {
    BeBound(modulusBytes);
    assert |modulusBytes| == 0 ==> Be(modulusBytes) == 0;
    r := LeftPadToWidth(value, |modulusBytes|);
    BeOfToBe(value.Value(), |modulusBytes|);
    BeInjective(r.value, ToBe(value.Value(), |modulusBytes|));
  }

  method RsaPublicOperation(key: PublicKeyMaterial, input: seq<Byte>) returns (r: Result<seq<Byte>>)
    ensures r.Ok? <==> Be(key.publicExponent) > 0 && Be(input) < Be(key.modulus)
    ensures r.Ok? ==> r.value == ToBe(Pow(Be(input), Be(key.publicExponent)) % Be(key.modulus), |key.modulus|)
  {
    r := RsaOperation(key.modulus, key.publicExponent, input);
  }

  method RsaPrivateOperation(key: PrivateKeyMaterial, input: seq<Byte>) returns (r: Result<seq<Byte>>)
    ensures r.Ok? <==> Be(key.privateExponent) > 0 && Be(input) < Be(key.modulus)
    ensures r.Ok? ==> r.value == ToBe(PrivateValue(key.Integers(), Be(input)), |key.modulus|)
    ensures r.Ok? ==> r.value == ToBe(Pow(Be(input), Be(key.privateExponent)) % Be(key.modulus), |key.modulus|)
  {
    var modulus := FromBeBytes(key.modulus);
    var exponent := FromBeBytes(key.privateExponent);
    var representative := FromBeBytes(input);
    ZeroIff(modulus);
    ZeroIff(exponent);
    if modulus.IsZero() || exponent.IsZero() {
      return Err(InvalidKey);
    }
    var order := Compare(representative, modulus);
    if order >= 0 {
      return Err(InvalidArgument);
    }
    BytesBits(key.privateExponent);
    var output := ModExpSecret(representative, exponent, modulus, 8 * |key.privateExponent|);
    r := PadResidue(output.value, key.modulus);
  }

  lemma BytesBits(s: seq<Byte>)
    ensures NumBits(Be(s)) <= 8 * |s| && Be(s) < Pow(2, 8 * |s|)
  {
    BeBound(s);
    Pow256(|s|);
    NumBitsLess(Be(s), 8 * |s|);
  }

  // ----- fixed-width exponentiation modulo a prime -----

  /** What the fixed-width path demands of a prime: at most 64 limbs, odd and greater than one. */
  predicate FixedModulus(modulusBytes: seq<Byte>) {
    0 < |modulusBytes| <= 4 * Fixed.MAX_LIMBS && Fixed.IsMontgomeryModulus(Be(modulusBytes))
  }

  /** The half exponentiation as the code performs it: only the prime's own bit width of the exponent. */
  function HalfValue(base: nat, exponent: seq<Byte>, prime: seq<Byte>): (r: nat)
    requires Be(prime) > 0
    ensures r < Be(prime)
  {
    PowPositive(2, 8 * |prime|);
    DivNonNegative(Be(exponent), Pow(2, 8 * |prime|));
    Pow(base, Be(exponent) % Pow(2, 8 * |prime|)) % Be(prime)
  }

  method FixedModExpToBigInt(baseBytes: seq<Byte>, exponentBytes: seq<Byte>, modulusBytes: seq<Byte>, exponentBits: nat)
    returns (r: Result<Big>)
    ensures r.Ok? <==> FixedModulus(modulusBytes)
    ensures r.Ok? ==> Pow(2, exponentBits) > 0
    ensures r.Ok? ==> var e := Be(exponentBytes) % Pow(2, exponentBits);
                      r.value.Value() == Pow(Be(baseBytes), e) % Be(modulusBytes)
  {
    var fixedWidth := (|modulusBytes| + 3) / 4;
    if fixedWidth == 0 || fixedWidth > Fixed.MAX_LIMBS {
      return Err(InvalidKey);
    }
    BeBound(modulusBytes);
    PowMonotone(256, |modulusBytes|, 4 * fixedWidth);
    var modulus := Fixed.FromBeBytes(modulusBytes, fixedWidth);
    var base := Fixed.FromBeBytesMod(baseBytes, modulus.value);
    if base.Err? {
      return Err(base.error);
    }
    var output := Fixed.MontgomeryModExpSecret(base.value, exponentBytes, modulus.value, exponentBits);
    PowPositive(2, exponentBits);
    ghost var e := Be(exponentBytes) % Pow(2, exponentBits);
    CongMod(Be(baseBytes), modulus.value.Value());
    CongPow(base.value.Value(), Be(baseBytes), e, modulus.value.Value());
    var outputBytes := Fixed.ToBeBytes(output.value);
    BeSuffix(outputBytes, |modulusBytes|);
    var value := FromBeBytes(outputBytes[|outputBytes| - |modulusBytes|..]);
    r := Ok(value);
  }

  // ----- CRT -----

  /** Garner's recombination; its result is already below the modulus, so the padding always fits. */
  method CrtRecombine(message1: Big, message2: Big, prime1: Big, prime2: Big, coefficient: Big,
                      modulus: Big, modulusBytes: seq<Byte>) returns (r: Result<seq<Byte>>)
    requires prime1.Value() > 0 && modulus.Value() == Be(modulusBytes) > 0
    ensures r == Ok(ToBe(Recombine(message1.Value(), message2.Value(), prime1.Value(), prime2.Value(),
                                   coefficient.Value(), modulus.Value()), |modulusBytes|))
  {
    var difference := ModSubtract(message1, message2, prime1);
    var h := ModMultiply(coefficient, difference.value, prime1);
    var qh := ModMultiply(prime2, h.value, modulus);
    var output := ModAdd(message2, qh.value, modulus);
    r := PadResidue(output.value, modulusBytes);
  }

  /** The fields the CRT operations insist on being non-zero. */
  predicate CrtFieldsPresent(k: Key) {
    k.n > 0 && k.p > 0 && k.q > 0 && k.dp > 0 && k.dq > 0 && k.qi > 0
  }

  method ImportNonZero(bytes: seq<Byte>) returns (r: Result<Big>)
    ensures r.Ok? <==> Be(bytes) > 0
    ensures r.Ok? ==> r.value.Value() == Be(bytes)
  {
    var value := FromBeBytes(bytes);
    ZeroIff(value);
    r := if value.IsZero() then Err(InvalidKey) else Ok(value);
  }

  /** What the CRT operation computes for any key, checked or not. */
  function CrtBytes(key: PrivateKeyMaterial, c: nat): seq<Byte>
    requires CrtFieldsPresent(key.Integers())
  {
    var k := key.Integers();
    var m1 := HalfValue(c, key.exponent1, key.prime1);
    var m2 := HalfValue(c, key.exponent2, key.prime2);
    ToBe(Recombine(m1, m2, k.p, k.q, k.qi, k.n), |key.modulus|)
  }

  /** The keys and inputs the CRT operation accepts. */
  predicate CrtUsable(key: PrivateKeyMaterial, c: nat) {
    && CrtFieldsPresent(key.Integers())
    && c < key.Integers().n
    && FixedModulus(key.prime1)
    && FixedModulus(key.prime2)
  }

  /** In full: every field non-zero, the input below n, and the primes odd, above one and of at most 256 bytes. */
  lemma CrtUsableMeans(key: PrivateKeyMaterial, c: nat)
    ensures CrtUsable(key, c)
       <==> c < Be(key.modulus) && Be(key.exponent1) > 0 && Be(key.exponent2) > 0 && Be(key.coefficient) > 0
            && 0 < |key.prime1| <= 256 && Be(key.prime1) > 1 && Be(key.prime1) % 2 == 1
            && 0 < |key.prime2| <= 256 && Be(key.prime2) > 1 && Be(key.prime2) % 2 == 1
  {
  }

  /** In full: with h = qi (m1 - m2) mod p, the value m2 + q h mod n of the two half exponentiations, each with
      as many bits of the exponent as its prime is wide. */
  lemma CrtBytesMean(key: PrivateKeyMaterial, c: nat, p: nat, q: nat, n: nat, m1: nat, m2: nat, h: nat)
    requires CrtFieldsPresent(key.Integers()) && p == Be(key.prime1) && q == Be(key.prime2) && n == Be(key.modulus)
    requires Pow(2, 8 * |key.prime1|) > 0 && Pow(2, 8 * |key.prime2|) > 0
    requires Be(key.exponent1) % Pow(2, 8 * |key.prime1|) >= 0 && Be(key.exponent2) % Pow(2, 8 * |key.prime2|) >= 0
    requires m1 == Pow(c, Be(key.exponent1) % Pow(2, 8 * |key.prime1|)) % p
    requires m2 == Pow(c, Be(key.exponent2) % Pow(2, 8 * |key.prime2|)) % q
    requires h == (Be(key.coefficient) * ((m1 - m2) % p)) % p
    ensures (m2 + q * h) % n >= 0 && CrtBytes(key, c) == ToBe((m2 + q * h) % n, |key.modulus|)
  {
    hide Be;
    hide Pow;
    hide ToBe;
    InnerReduction(m2, q * h, n);
  }

  lemma InnerReduction(x: int, y: int, n: int)
    requires n > 0
    ensures (x + y % n) % n == (x + y) % n
  {
    ModAddMultiple(x + y % n, y / n, n);
    assert x + y == x + y % n + (y / n) * n;
  }

  method RsaPrivateCrtOperation(key: PrivateKeyMaterial, input: seq<Byte>) returns (r: Result<seq<Byte>>)
    ensures r.Ok? <==> CrtUsable(key, Be(input))
    ensures r.Ok? ==> r.value == CrtBytes(key, Be(input))
    ensures r.Ok? && PrimeKey(key.Integers())
        ==> r.value == ToBe(PrivateValue(key.Integers(), Be(input)), |key.modulus|)
  {
    CrtBytesCorrect(key, Be(input));
    hide Be;
    hide Val;
    hide Pow;
    hide Recombine;
    hide ToBe;
    hide PrimeKey;
    hide PrivateValue;
    var modulus := ImportNonZero(key.modulus);
    var representative := FromBeBytes(input);
    var prime1 := ImportNonZero(key.prime1);
    var prime2 := ImportNonZero(key.prime2);
    var exponent1 := ImportNonZero(key.exponent1);
    var exponent2 := ImportNonZero(key.exponent2);
    var coefficient := ImportNonZero(key.coefficient);
    if modulus.Err? || prime1.Err? || prime2.Err? || exponent1.Err? || exponent2.Err? || coefficient.Err? {
      return Err(InvalidKey);
    }
    var order := Compare(representative, modulus.value);
    if order >= 0 {
      return Err(InvalidArgument);
    }
    var message1 := FixedModExpToBigInt(input, key.exponent1, key.prime1, 8 * |key.prime1|);
    if message1.Err? {
      return Err(message1.error);
    }
    var message2 := FixedModExpToBigInt(input, key.exponent2, key.prime2, 8 * |key.prime2|);
    if message2.Err? {
      return Err(message2.error);
    }
    r := CrtRecombine(message1.value, message2.value, prime1.value, prime2.value, coefficient.value,
      modulus.value, key.modulus);
  }

  /** A validated exponent is shorter than its prime, so truncation to the prime's width is harmless. */
  lemma HalfValueFull(c: nat, exponent: seq<Byte>, prime: seq<Byte>)
    requires Be(exponent) < Be(prime)
    ensures HalfValue(c, exponent, prime) == Pow(c, Be(exponent)) % Be(prime)
  {
    BytesBits(prime);
    ModSmall(Be(exponent), Pow(2, 8 * |prime|));
  }

  /** For every validated key with prime factors the CRT operation is c^d mod n. */
  lemma CrtBytesCorrect(key: PrivateKeyMaterial, c: nat)
    ensures PrimeKey(key.Integers()) && CrtFieldsPresent(key.Integers())
        ==> CrtBytes(key, c) == ToBe(PrivateValue(key.Integers(), c), |key.modulus|)
  {
    var k := key.Integers();
    if PrimeKey(k) && CrtFieldsPresent(k) {
      KeyHalves(k);
      HalfKeyFacts(k.p, k.e, k.d, k.dp);
      HalfKeyFacts(k.q, k.e, k.d, k.dq);
      HalfValueFull(c, key.exponent1, key.prime1);
      HalfValueFull(c, key.exponent2, key.prime2);
      CrtIsPrivate(k, c);
    }
  }

  /** A validated key can be used with CRT exactly when both primes fit 64 limbs. */
  lemma AcceptedKeyUsable(key: PrivateKeyMaterial, c: nat)
    requires Accepted(key) && c < key.Integers().n
    ensures CrtUsable(key, c) <==> |key.prime1| <= 256 && |key.prime2| <= 256
  {
    BeBound(key.prime1);
    BeBound(key.prime2);
    assert |key.prime1| == 0 ==> Be(key.prime1) == 0;
    assert |key.prime2| == 0 ==> Be(key.prime2) == 0;
  }

  /** The limit is reached: q = 3, p = 2^2056 + 1 and e = d = 2^2056 - 1 meet every relation, and are refused
      for every input. */
  lemma OversizedKey() returns (key: PrivateKeyMaterial)
    ensures Accepted(key) && |key.prime1| == 258
    ensures forall c: nat :: !CrtUsable(key, c)
  {
    var h := ThirdPower();
    var p, d := h + 1, h - 1;
    var qi := (h + 2) / 3;
    key := PrivateKeyMaterial(ToBe(3 * p, 259), ToBe(d, 257), ToBe(d, 257), ToBe(p, 258), [3], ToBe(d, 257), [1], ToBe(qi, 257));
    assert Pow(256, 258) == 256 * Pow(256, 257) && Pow(256, 259) == 256 * Pow(256, 258);
    hide Pow;
    BeOfToBe(3 * p, 259);
    BeOfToBe(d, 257);
    BeOfToBe(p, 258);
    BeOfToBe(qi, 257);
    BeOne(3);
    BeOne(1);
    OversizedRelations(key, h);
  }

  /** 2^2056 = 256^257 is even and leaves 1 modulo 3. */
  lemma ThirdPower() returns (h: nat)
    ensures h == Pow(256, 257) && h % 3 == 1 && h % 2 == 0 && h > 3
  {
    PowerOf256(257);
    h := Pow(256, 257);
    hide Pow;
  }

  lemma {:induction false} PowerOf256(e: nat)
    ensures Pow(256, e) % 3 == 1 && Pow(256, e) > 0
    ensures e > 0 ==> Pow(256, e) % 2 == 0 && Pow(256, e) > 3
  {
    if e > 0 {
      PowerOf256(e - 1);
      PowStep(256, e - 1);
    }
  }

  lemma OversizedRelations(key: PrivateKeyMaterial, h: nat)
    requires h % 3 == 1 && h % 2 == 0 && h > 3
    requires key.Integers() == Key(3 * (h + 1), h - 1, h - 1, h + 1, 3, h - 1, 1, (h + 2) / 3)
    ensures Accepted(key)
  {
    ModSmall(h - 1, h);
    SquareIsOne(h);
    CoefficientIsOne(h);
    hide Be;
    OddSizes(h);
  }

  lemma OddSizes(h: nat)
    requires h % 2 == 0 && h > 3
    ensures OddGreaterThanOne(3 * (h + 1)) && OddGreaterThanOne(h - 1) && OddGreaterThanOne(h + 1)
    ensures (h - 1) % (3 - 1) == 1 && ((h - 1) * 1) % (3 - 1) == 1 && (h + 1) * 3 == 3 * (h + 1)
  {
  }

  lemma CoefficientIsOne(h: nat)
    requires h % 3 == 1 && h > 3
    ensures (3 * ((h + 2) / 3)) % (h + 1) == 1 && (h + 2) / 3 > 0
  {
    assert 3 * ((h + 2) / 3) == h + 2;
    ModAddMultiple(1, 1, h + 1);
    ModSmall(1, h + 1);
  }

  lemma SquareIsOne(h: int)
    requires h > 1
    ensures ((h - 1) * (h - 1)) % h == 1
  {
    assert (h - 1) * (h - 1) == 1 + (h - 2) * h;
    ModAddMultiple(1, h - 2, h);
    ModSmall(1, h);
  }

  // ----- blinded CRT -----

  /** One unblinded half as the code computes it. */
  function UnblindedMessage(blinded: nat, r: nat, exponent: seq<Byte>, prime: seq<Byte>): int
    requires Be(prime) > 1
  {
    var p := Be(prime);
    PowPositive(2, 8 * |prime|);
    DivNonNegative(p - 2, Pow(2, 8 * |prime|));
    (HalfValue(blinded, exponent, prime) * (Pow(r % p, (p - 2) % Pow(2, 8 * |prime|)) % p)) % p
  }

  function BlindedBytes(key: PrivateKeyMaterial, c: nat, r: nat): seq<Byte>
    requires CrtFieldsPresent(key.Integers()) && Be(key.prime1) > 1 && Be(key.prime2) > 1
  {
    var k := key.Integers();
    var b := Blinded(k, c, r);
    var m1 := UnblindedMessage(b, r, key.exponent1, key.prime1);
    var m2 := UnblindedMessage(b, r, key.exponent2, key.prime2);
    ToBe(Recombine(m1, m2, k.p, k.q, k.qi, k.n), |key.modulus|)
  }

  /** The blinding factors the operation takes: those invertible modulo both primes. */
  predicate BlindingUsable(key: PrivateKeyMaterial, r: nat)
    requires CrtFieldsPresent(key.Integers())
  {
    var k := key.Integers();
    k.e > 0 && r > 0 && r % k.p != 0 && r % k.q != 0
  }

  /** In full: a public exponent, and a factor that is zero modulo neither prime. */
  lemma BlindingUsableMeans(key: PrivateKeyMaterial, r: nat)
    requires CrtFieldsPresent(key.Integers())
    ensures BlindingUsable(key, r)
       <==> Be(key.publicExponent) > 0 && r > 0 && r % Be(key.prime1) != 0 && r % Be(key.prime2) != 0
  {
  }

  /** In full: the blinded input b = c r^e mod n, the two half exponentiations of b, each multiplied by
      r^(prime - 2), and their recombination. */
  lemma BlindedBytesMean(key: PrivateKeyMaterial, c: nat, r: nat, p: nat, q: nat, n: nat, b: nat, m1: nat, m2: nat, h: nat)
    requires CrtFieldsPresent(key.Integers()) && p == Be(key.prime1) > 1 && q == Be(key.prime2) > 1 && n == Be(key.modulus)
    requires Pow(2, 8 * |key.prime1|) > 0 && Pow(2, 8 * |key.prime2|) > 0
    requires Be(key.exponent1) % Pow(2, 8 * |key.prime1|) >= 0 && Be(key.exponent2) % Pow(2, 8 * |key.prime2|) >= 0
    requires b == (c * (Pow(r, Be(key.publicExponent)) % n)) % n
    requires m1 == (Pow(b, Be(key.exponent1) % Pow(2, 8 * |key.prime1|)) % p * (Pow(r % p, p - 2) % p)) % p
    requires m2 == (Pow(b, Be(key.exponent2) % Pow(2, 8 * |key.prime2|)) % q * (Pow(r % q, q - 2) % q)) % q
    requires h == (Be(key.coefficient) * ((m1 - m2) % p)) % p
    ensures (m2 + q * h) % n >= 0 && BlindedBytes(key, c, r) == ToBe((m2 + q * h) % n, |key.modulus|)
  {
    InnerReduction(m2, q * h, n);
    BytesBits(key.prime1);
    BytesBits(key.prime2);
    hide Be;
    hide Pow;
    hide ToBe;
    ModSmall(p - 2, Pow(2, 8 * |key.prime1|));
    ModSmall(q - 2, Pow(2, 8 * |key.prime2|));
  }

  method RsaPrivateCrtBlindedOperation(key: PrivateKeyMaterial, input: seq<Byte>, blindingFactor: seq<Byte>)
    returns (r: Result<seq<Byte>>)
    ensures r.Ok? <==> CrtUsable(key, Be(input)) && BlindingUsable(key, Be(blindingFactor))
    ensures r.Ok? ==> r.value == BlindedBytes(key, Be(input), Be(blindingFactor))
    ensures r.Ok? && PrimeKey(key.Integers())
        ==> r.value == ToBe(PrivateValue(key.Integers(), Be(input)), |key.modulus|)
  {
    BlindedBytesCorrect(key, Be(input), Be(blindingFactor));
    var representative := FromBeBytes(input);
    var blinding := FromBeBytes(blindingFactor);
    hide Be;
    hide Val;
    hide Pow;
    hide Recombine;
    hide ToBe;
    hide PrimeKey;
    hide PrivateValue;
    hide BlindedBytes;
    r := BlindedOperation(key, representative, blinding);
  }

  /** The operation on the two numbers, for any key, checked or not. */
  method BlindedOperation(key: PrivateKeyMaterial, representative: Big, blinding: Big) returns (r: Result<seq<Byte>>)
    ensures r.Ok? <==> CrtUsable(key, representative.Value()) && BlindingUsable(key, blinding.Value())
    ensures r.Ok? ==> r.value == BlindedBytes(key, representative.Value(), blinding.Value())
  {
    hide Be;
    hide Val;
    hide Pow;
    hide Recombine;
    hide ToBe;
    hide UnblindedMessage;
    var modulus := ImportNonZero(key.modulus);
    var publicExponent := ImportNonZero(key.publicExponent);
    var prime1 := ImportNonZero(key.prime1);
    var prime2 := ImportNonZero(key.prime2);
    var exponent1 := ImportNonZero(key.exponent1);
    var exponent2 := ImportNonZero(key.exponent2);
    var coefficient := ImportNonZero(key.coefficient);
    if modulus.Err? || publicExponent.Err? || prime1.Err? || prime2.Err? || exponent1.Err? || exponent2.Err? || coefficient.Err? {
      return Err(InvalidKey);
    }
    var order := Compare(representative, modulus.value);
    ZeroIff(blinding);
    if order >= 0 || blinding.IsZero() {
      return Err(InvalidArgument);
    }
    OneValue();
    var blindingModPrime1 := ModMultiply(blinding, ONE, prime1.value);
    var blindingModPrime2 := ModMultiply(blinding, ONE, prime2.value);
    ZeroIff(blindingModPrime1.value);
    ZeroIff(blindingModPrime2.value);
    if blindingModPrime1.value.IsZero() || blindingModPrime2.value.IsZero() {
      return Err(InvalidArgument);
    }
    var blindingPower := ModExp(blinding, publicExponent.value, modulus.value);
    var blinded := ModMultiply(representative, blindingPower.value, modulus.value);
    var message1 := UnblindHalf(blinded.value, blindingModPrime1.value, prime1.value, key.exponent1, key.prime1, blinding.Value());
    if message1.Err? {
      return Err(message1.error);
    }
    var message2 := UnblindHalf(blinded.value, blindingModPrime2.value, prime2.value, key.exponent2, key.prime2, blinding.Value());
    if message2.Err? {
      return Err(message2.error);
    }
    r := CrtRecombine(message1.value, message2.value, prime1.value, prime2.value, coefficient.value,
      modulus.value, key.modulus);
  }

  /** Exponentiates the blinded representative modulo one prime and divides the blinding out. */
  method UnblindHalf(blinded: Big, blindingModPrime: Big, prime: Big, exponent: seq<Byte>, primeBytes: seq<Byte>, ghost factor: nat)
    returns (r: Result<Big>)
    requires prime.Value() == Be(primeBytes) > 0 && blindingModPrime.Value() == factor % Be(primeBytes)
    ensures r.Ok? <==> FixedModulus(primeBytes)
    ensures r.Ok? ==> r.value.Value() == UnblindedMessage(blinded.Value(), factor, exponent, primeBytes)
  {
    var blindedBytes := ToBeBytes(blinded);
    var two := FromBeBytes([2]);
    BeOne(2);
    hide Be;
    hide Val;
    var blindedMessage := FixedModExpToBigInt(blindedBytes, exponent, primeBytes, 8 * |primeBytes|);
    if blindedMessage.Err? {
      return Err(blindedMessage.error);
    }
    var primeMinusTwo := ModSubtract(prime, two, prime);
    ModSmall(prime.Value() - 2, prime.Value());
    var blindingBytes := ToBeBytes(blindingModPrime);
    var primeMinusTwoBytes := ToBeBytes(primeMinusTwo.value);
    var inverse := FixedModExpToBigInt(blindingBytes, primeMinusTwoBytes, primeBytes, 8 * |primeBytes|);
    r := ModMultiply(blindedMessage.value, inverse.value, prime);
  }

  lemma UnblindedMessageFull(blinded: nat, r: nat, exponent: seq<Byte>, prime: seq<Byte>)
    requires Be(exponent) < Be(prime) && Be(prime) > 1
    ensures UnblindedMessage(blinded, r, exponent, prime) == UnblindedHalf(blinded, r, Be(prime), Be(exponent))
  {
    BytesBits(prime);
    HalfValueFull(blinded, exponent, prime);
    ModSmall(Be(prime) - 2, Pow(2, 8 * |prime|));
  }

  /** Blinded CRT is c^d mod n as well, whatever accepted factor was drawn. */
  lemma BlindedBytesCorrect(key: PrivateKeyMaterial, c: nat, r: nat)
    ensures PrimeKey(key.Integers()) && CrtFieldsPresent(key.Integers()) && BlindingUsable(key, r)
        ==> BlindedBytes(key, c, r) == ToBe(PrivateValue(key.Integers(), c), |key.modulus|)
  {
    var k := key.Integers();
    if PrimeKey(k) && CrtFieldsPresent(k) && BlindingUsable(key, r) {
      KeyHalves(k);
      HalfKeyFacts(k.p, k.e, k.d, k.dp);
      HalfKeyFacts(k.q, k.e, k.d, k.dq);
      UnblindedMessageFull(Blinded(k, c, r), r, key.exponent1, key.prime1);
      UnblindedMessageFull(Blinded(k, c, r), r, key.exponent2, key.prime2);
      BlindingIsTransparent(k, c, r);
      CrtIsPrivate(k, c);
    }
  }

  // ----- sign, then verify -----

  /** On bytes: the public operation applied to the private operation's output is the input,
      re-encoded at modulus width. */
  lemma RoundTrip(key: PrivateKeyMaterial, input: seq<Byte>)
    requires PrimeKey(key.Integers()) && Be(input) < Be(key.modulus)
    ensures Be(key.modulus) > 0 && PrivateValue(key.Integers(), Be(input)) >= 0
    ensures var s := ToBe(PrivateValue(key.Integers(), Be(input)), |key.modulus|);
            Be(s) < Be(key.modulus)
            && ToBe(Pow(Be(s), Be(key.publicExponent)) % Be(key.modulus), |key.modulus|)
            == ToBe(Be(input), |key.modulus|)
  {
    var k := key.Integers();
    BeBound(key.modulus);
    BeOfToBe(PrivateValue(k, Be(input)), |key.modulus|);
    PublicUndoesPrivate(k, Be(input));
  }
}
