# Verification of crypto-core

A Dafny model of the native arithmetic of crypto-core and of the constructions built on it, with
proofs that the model does what the constructions promise. `dafny verify dfyconfig.toml` checks all
of it. The modules follow the source files in four towers.

1. **RSA.** `LimbLoops`, `Montgomery`, `MontgomeryLoops` and `RsaFixedBigInt` are 32-bit limb
   arithmetic with explicit carries up to the masked Montgomery ladder; `BigInt` and `BigIntPower` are
   the variable-length numbers. `RsaTheory` proves, from Fermat's little theorem (`NumberTheory`), that
   CRT, blinded CRT and plain exponentiation agree and that the public operation undoes the private
   one; `RsaDer` is the key validation this rests on, and `Rsa` carries it to byte strings.
2. **Curves.** `Weierstrass` is chord and tangent, `Jacobian` the projective formulas that refine it;
   `P256Limbs` and `P256Points` compute them on eight limbs, `P256Reference` by `BigInt` calls, `P256`
   adds byte strings and the scalar multiplications, `EcDer` and `Ecdsa` signatures. `Edwards`,
   `EdwardsExtended`, `Ed25519Points`, `Ed25519Big` (the `BigInt` calls) and `Ed25519` do the same for
   Ed25519.
3. **Padding.** `MaskGeneration`, `RsaPss` and `RsaOaep`: encoders, and decoders written with masks,
   that accept exactly the encodings.
4. **Symmetric.** `Aes` and `AesCbc`, `Polynomials`, `Gf128` and `AesGcm`, `Sha2Spec`, `Sha2Rounds`,
   `Sha2` and `Hmac`: invertible rounds, the field of GCM, and buffered contexts that compute a one-shot
   specification however the input is split. `AesStandard` and `Sha2Standard` derive the tables and
   constants from their definitions (inverses in GF(2^8), roots of primes), and `Sha2Vectors` the digests of
   a standard message. `Instances` puts these hashes into the constructions that take a hash as a parameter.

Words and bytes in the arithmetic modules are bounded integers, and every truncation, wrap and carry
is written out. The symmetric and padding modules use bit-vectors. Code that loops or updates in place
is a method with invariants, proved against a function; the theorems are about that function. Classes
of the source that change state are classes here. What the standards fix byte by byte, such as the nonce
seed, the clamped scalar, the padded blocks and the tables, is stated on bytes and numbers as well, without
the functions that compute it.

**Hypotheses.** Nothing is taken as an axiom. What the code does not establish is a named predicate in
a `requires` clause:

- `RsaTheory.PrimeKey`: the relations the validation checks, and that p and q are prime, which it does
  not check.
- `P256.GroupLaw`: the P-256 p is prime and its curve addition is associative.
- `Ecdsa.GroupOfPrimeOrder`: in addition n is prime and n G is the point at infinity.
- `Ed25519.GroupFacts`: 2^255 - 19 is prime, its curve addition is associative and L B is the identity.
  That d is not a square is proved from primality alone, so the addition law is complete and point
  coding is a bijection without the other two.

Where a construction only needs some hash function, it takes one as a parameter, and the length of its
output is a stated condition; `Instances` states the results for SHA-256, SHA-512 and HMAC-SHA-256
themselves. The 256-bit constants are written as eight words, and the proofs that do not evaluate them
never see their values.

**A limit the proofs brought out.** The key validation (`src/rsa_der.cpp:215-290`) puts no bound on the
size of a prime, and the CRT operations (`src/rsa.cpp:90-125`) refuse a prime of more than 64 limbs.
`Rsa.AcceptedKeyUsable` states when a validated key can be used: exactly when both primes are at most
256 bytes long. `Rsa.OversizedKey` is a validated key that cannot. Likewise the length guard of the PSS
verifier (`src/rsa_pss.cpp:172`) wraps for salt lengths close to 2^64; `RsaPss.GuardExact` states when
it is the guard that was meant, and `RsaPss.GuardWraps` gives an input where it is not.

## Model

| member | source | states |
|---|---|---|
| `MontgomeryLoops.LowInverse` | src/rsa_fixed_bigint.cpp:263-278 | For every odd low limb the five Newton steps over 32-bit words, then the negation, give the w with n0*w = -1 (mod 2^32). |
| `MontgomeryLoops.NewtonIteration` | src/rsa_fixed_bigint.cpp:271-277 | One step doubles the precision: an inverse modulo 2^b becomes one modulo 2^(2b), although the code computes modulo 2^32 throughout. |
| `LimbLoops.AddProductRow` | src/rsa_fixed_bigint.cpp:342-350 | One row of the schoolbook product: the accumulator plus the returned carry equals the old accumulator plus factor * row * 2^(32 i); no carry is lost. |
| `LimbLoops.AddCarry` | src/rsa_fixed_bigint.cpp:42-52 | For every 64-bit carry the loop adds carry * 2^(32 index) modulo the size of the buffer; what is lost is a carry out of the top limb, and 2^64 exactly when the first 64-bit sum wraps. |
| `MontgomeryLoops.MultiplyInto` | src/rsa_fixed_bigint.cpp:338-352 | The accumulator ends up holding the exact product of the two limb vectors, for every width. |
| `MontgomeryLoops.ReduceLimb` | src/rsa_fixed_bigint.cpp:356-366 | One reduction step at limb i adds a multiple of N, makes limb i vanish and drops no carry. |
| `MontgomeryLoops.ReduceInto` | src/rsa_fixed_bigint.cpp:354-367 | After all steps the upper limbs u satisfy u * R = T (mod N) and u < 2N, for every T < N^2 and every width. |
| `RsaFixedBigInt.UpperHalf` | src/rsa_fixed_bigint.cpp:369-375 | Above the width only a single zero or one can remain, so or-ing the two top limbs loses nothing. |
| `RsaFixedBigInt.SubtractModulusIfNeeded` | src/rsa_fixed_bigint.cpp:580-588 | One masked subtraction reduces any value below 2N, also when the value has overflowed into the high limb. |
| `RsaFixedBigInt.MontgomeryMultiply` | src/rsa_fixed_bigint.cpp:305-376 | Succeeds exactly for an odd modulus above one, matching widths and reduced operands; the result is below N and, times R, congruent to lhs * rhs modulo N. |
| `RsaFixedBigInt.ReduceProduct` | src/rsa_fixed_bigint.cpp:354-375 | The reduction half of the multiplication: from any product below N^2 to its Montgomery quotient below N. |
| `RsaFixedBigInt.ToMontgomery` | src/rsa_fixed_bigint.cpp:378-404 | The doubling loop returns value * R mod N, fully reduced. |
| `RsaFixedBigInt.FromMontgomery` | src/rsa_fixed_bigint.cpp:406-417 | Undoes the Montgomery form: the argument equals result * R modulo N, and the result is below N. |
| `RsaFixedBigInt.LadderIteration` | src/rsa_fixed_bigint.cpp:450-481 | One ladder round turns (base^k, base^(k+1)) in Montgomery form into the pair for 2k + bit, both registers written through masked selections. |
| `RsaFixedBigInt.MontgomeryModExpSecret` | src/rsa_fixed_bigint.cpp:419-484 | Returns base^(exponent mod 2^exponent_bits) mod N for every odd N > 1, every exponent string and every bit count; fails exactly for bad operands. |
| `RsaFixedBigInt.ExponentBitIsBit` | src/rsa_fixed_bigint.cpp:541-550 | The bit the code fetches from the big-endian string is that bit of the number, zero beyond its end. |
| `RsaFixedBigInt.FromBeBytesMod` | src/rsa_fixed_bigint.cpp:104-130 | Horner reduction of a byte string of any length gives its value modulo N. |
| `RsaFixedBigInt.HornerByte` | src/rsa_fixed_bigint.cpp:113-127 | Absorbing the eight bits of a byte from the top is multiplying by 256 and adding the byte. |
| `RsaFixedBigInt.FromBeBytes` | src/rsa_fixed_bigint.cpp:71-102 | Succeeds exactly when the value fits the width, and then has the value of the bytes. |
| `RsaFixedBigInt.ToBeBytes` | src/rsa_fixed_bigint.cpp:132-146 | Exactly four bytes a limb, with the same value. |
| `RsaFixedBigInt.LessThanMask` | src/rsa_fixed_bigint.cpp:182-202 | The borrow chain yields 0xFF exactly when lhs < rhs, and 0x00 otherwise. |
| `RsaFixedBigInt.Select` | src/rsa_fixed_bigint.cpp:204-220 | The masked selection returns one of the two numbers whole, decided by the top bit of the mask. |
| `RsaFixedBigInt.Subtract` | src/rsa_fixed_bigint.cpp:242-261 | Subtraction modulo 2^(32 width). |
| `RsaFixedBigInt.RequireMontgomeryModulus` | src/rsa_fixed_bigint.cpp:501-518 | Accepts exactly the odd moduli above one. |
| `RsaFixedBigInt.AddOneMod` | src/rsa_fixed_bigint.cpp:552-564 | (value + 1) mod N from one add and one masked subtraction, carry out of the top limb included. |
| `RsaFixedBigInt.DoubleMod` | src/rsa_fixed_bigint.cpp:566-578 | (2 * value) mod N from one shift and one masked subtraction, carry out of the top limb included. |
| `BigInt.BigUnique` | src/bigint.cpp:295-301 | Normalised limb vectors are canonical: equal values are equal vectors. |
| `BigInt.FromBeBytes` | src/bigint.cpp:18-43 | Any byte string, leading zeros included, becomes the normalised number it spells. |
| `BigInt.ToBeBytes` | src/bigint.cpp:250-273 | The unique minimal big-endian string of the value. |
| `BigInt.Compare` | src/bigint.cpp:280-283 | Numeric order of the values. |
| `BigInt.CompareLimbs` | src/bigint.cpp:335-366 | Dropping zero top limbs and scanning from the top decides the numeric order of any two limb vectors. |
| `BigInt.BitLength` | src/bigint.cpp:315-333 | The number of bits of the value, zero for zero. |
| `BigInt.Add` | src/bigint.cpp:368-382 | The exact sum, for any lengths. |
| `BigInt.Subtract` | src/bigint.cpp:384-405 | The difference modulo 2^(32 width) of the minuend for any two numbers, and the exact difference when the minuend is not smaller. |
| `BigInt.Multiply` | src/bigint.cpp:407-437 | The exact product, for any lengths. |
| `BigInt.ShiftLeftBits` | src/bigint.cpp:439-459 | value * 2^bits for every shift count, including the carry limb. |
| `BigInt.Mod` | src/bigint.cpp:461-483 | value mod modulus for every nonzero modulus (the value itself for zero); the loop terminates because the remainder strictly falls in every round. |
| `BigInt.SubtractShifted` | src/bigint.cpp:466-481 | One round of the reduction: what is subtracted is a multiple of the modulus, never more than the remainder, and removes its top bit position. |
| `BigInt.ModAdd` | src/bigint.cpp:45-53 | (lhs + rhs) mod modulus; fails only for a zero modulus. |
| `BigInt.ModSubtract` | src/bigint.cpp:55-70 | (lhs - rhs) mod modulus as a non-negative residue, for operands of any size. |
| `BigInt.ModMultiply` | src/bigint.cpp:72-80 | (lhs * rhs) mod modulus. |
| `BigIntPower.ModExp` | src/bigint.cpp:82-102 | Square-and-multiply returns base^exponent mod modulus for every base and exponent, modulus one included. |
| `BigIntPower.ModExpSecret` | src/bigint.cpp:104-132 | The masked two-register ladder returns the same power for every modulus, and refuses exactly the exponents longer than the given width. |
| `BigIntPower.ModExpSecretMontgomery` | src/bigint.cpp:134-234 | The variable-limb Montgomery ladder returns the same power for every odd modulus, and refuses even moduli and too long exponents. |
| `BigIntPower.ConstantTimeSelect` | src/bigint.cpp:236-248 | Selection by the top bit of the mask, of the low width limbs. |
| `RsaDer.ValidatePrivateKeyMath` | src/rsa_der.cpp:215-290 | Accepts exactly the keys with p*q = n, dp and dq the residues of d, e*dp = 1 mod p-1, e*dq = 1 mod q-1 and q*qi = 1 mod p. |
| `RsaTheory.CrtIsPrivate` | src/rsa.cpp:90-158 | For every validated key with prime p and q, the CRT formula is c^d mod n, for every c, multiples of p and q included. |
| `RsaTheory.RecombineCorrect` | src/rsa.cpp:127-158 | Garner recombination returns the number modulo n with the two given residues, for any residues. |
| `RsaTheory.GarnerBound` | src/rsa.cpp:127-158 | m2 + q*h is already below p*q, so the two reductions modulo n in the recombination change nothing. |
| `RsaTheory.DistinctPrimes` | src/rsa_der.cpp:273-289 | The coefficient relation alone makes the two prime factors of a validated key distinct. |
| `RsaTheory.ChineseRemainder` | src/rsa_der.cpp:215-290 | For a validated prime key, equality modulo both factors is equality modulo n. |
| `RsaTheory.BlindingIsTransparent` | src/rsa.cpp:254-395 | For every blinding factor that is invertible modulo both primes, blinded CRT equals unblinded CRT. |
| `RsaTheory.HalfUnblinding` | src/rsa.cpp:334-392 | Modulo one prime: r^e raised to dp is r, and r^(p-2) cancels it. |
| `RsaTheory.PublicUndoesPrivate` | src/rsa.cpp:162-196 | (c^d)^e = c modulo n for every c below n (section 5.2.1 of RFC 8017), from Fermat, also when c shares a factor with n. |
| `RsaTheory.PrivateUndoesPublic` | src/rsa.cpp:162-196 | (m^e)^d = m modulo n for every m below n (section 5.1.2 of RFC 8017). |
| `Rsa.LeftPadToWidth` | src/rsa.cpp:22-42 | Exactly `width` bytes with the same value; fails exactly when the value does not fit. |
| `Rsa.RsaPublicOperation` | src/rsa.cpp:44-73 | Succeeds exactly for a nonzero exponent and an input below n; returns input^e mod n at modulus width. |
| `Rsa.RsaPrivateOperation` | src/rsa.cpp:167-196 | Succeeds exactly for a nonzero exponent and an input below n; returns input^d mod n at modulus width. |
| `Rsa.FixedModExpToBigInt` | src/rsa.cpp:90-125 | base^(exponent mod 2^bits) modulo the byte-string modulus for any base string; succeeds exactly for odd moduli above one of at most 64 limbs. |
| `Rsa.CrtRecombine` | src/rsa.cpp:127-158 | Computes the Garner formula on any numbers and pads it to modulus width without failing. |
| `Rsa.RsaPrivateCrtOperation` | src/rsa.cpp:198-252 | States exactly which keys and inputs are taken, the value computed for any of them, and that with validated prime factors the result is input^d mod n. |
| `Rsa.CrtUsableMeans` | src/rsa.cpp:198-252 | Usable means: every field non-zero, the input below n, both primes odd, above one and at most 256 bytes long. |
| `Rsa.CrtBytesMean` | src/rsa.cpp:198-252 | For any key, validated or not, the result is m2 + q ((qi (m1 - m2)) mod p) mod n with half exponents cut to the width of their prime. |
| `Rsa.AcceptedKeyUsable` | src/rsa.cpp:90-125 | A validated key can be used with CRT if and only if both primes are at most 256 bytes: validation accepts larger ones, the 64-limb exponentiation does not. |
| `Rsa.OversizedKey` | src/rsa.cpp:90-125 | The limit is reached: the key with q = 3, p = 2^2056 + 1 and e = d = 2^2056 - 1 passes validation and is refused by the CRT operations for every input. |
| `Rsa.CrtBytesCorrect` | src/rsa.cpp:198-252 | For every validated key with prime factors, truncating the exponents to the prime width is harmless and the CRT bytes are those of c^d mod n. |
| `Rsa.RsaPrivateCrtBlindedOperation` | src/rsa.cpp:254-395 | States exactly which keys, inputs and blinding factors are taken, and that with validated prime factors the result is input^d mod n whatever factor was drawn. |
| `Rsa.BlindingUsableMeans` | src/rsa.cpp:254-332 | The factors taken are exactly those that are zero modulo neither prime, with a non-zero public exponent. |
| `Rsa.BlindedBytesMean` | src/rsa.cpp:254-395 | For any key the result recombines the two halves of c r^e, each multiplied by r^(prime - 2). |
| `Rsa.BlindedBytesCorrect` | src/rsa.cpp:254-395 | For every validated prime key and accepted factor, the blinded bytes are those of c^d mod n. |
| `Rsa.RoundTrip` | src/rsa.cpp:162-252 | On bytes: the public operation applied to the private result gives the input back at modulus width, for every input below n. |
| `NumberTheory.FermatLittle` | src/rsa.cpp:357-386 | a^(p-1) = 1 modulo every prime p not dividing a, proved by permuting the residues; the ground for every inverse the code takes with an exponent of p-2. |
| `NumberTheory.FermatInverse` | src/rsa.cpp:357-381 | a^(p-2) is the inverse of a modulo a prime p. |
| `NumberTheory.FermatReduceExponent` | src/rsa_der.cpp:254-286 | Modulo a prime p exponents may be reduced modulo p-1, the reason dp and dq may replace d. |
| `ConstantTime.BoolMasks` | src/memory.cpp:30-33 | Conjunction, disjunction and negation of booleans are &, | and ! of their masks. |
| `ConstantTime.IsZeroMask` | src/memory.cpp:35-40 | 0xFF exactly for zero, from the sign of x | -x. |
| `ConstantTime.Select` | src/memory.cpp:42-46 | Returns one operand whole, decided by the top bit of the mask. |
| `ConstantTime.Equal` | src/memory.cpp:54-68 | Accumulated differences decide equality of byte strings, lengths included. |
| `P256Limbs.MultiplyWide` | src/p256_fixed.cpp:147-171 | The exact 512-bit product of two 256-bit numbers. |
| `P256Limbs.ShiftLeftOneAdd` | src/p256_fixed.cpp:187-197 | 2 * value + bit, with the bit that leaves the 256 bits returned as the carry. |
| `P256Limbs.ReduceWide` | src/p256_fixed.cpp:199-215 | value mod modulus for every nonzero 256-bit modulus, also when the shifted remainder overflows 256 bits. |
| `P256Limbs.SubtractWrapped` | src/p256_fixed.cpp:120-140 | The difference modulo 2^256. |
| `P256Limbs.Compare` | src/p256_fixed.cpp:102-118 | Numeric order of two 256-bit numbers. |
| `P256Limbs.ModAdd` | src/p256_fixed.cpp:224-236 | (lhs + rhs) mod modulus through the ninth limb. |
| `P256Limbs.ModSubtract` | src/p256_fixed.cpp:238-247 | (lhs - rhs) mod modulus for reduced operands, and what the wrapping code gives for any others. |
| `P256Limbs.ModExp` | src/p256_fixed.cpp:254-267 | base^exponent mod modulus for every nonzero modulus and all 256 exponent bits. |
| `P256Points.ConstantsAgree` | src/p256_fixed.cpp:49-64 | The limb constants are the numbers p, a, b, Gx, Gy, n, p-2 and n-2. |
| `P256Points.ConstantValues` | src/p256_fixed.cpp:49-64 | The constants are the numbers of section 3.2.1.3 of SP 800-186. |
| `P256Points.BasePointOnCurve` | src/p256_fixed.cpp:51-58 | The base point satisfies the curve equation. |
| `P256Points.IsOnCurveAffine` | src/p256_fixed.cpp:411-424 | For reduced coordinates, true exactly for the finite points of the curve. |
| `P256Points.LimbDouble` | src/p256_fixed.cpp:470-495 | The limb code computes the Jacobian doubling formula and keeps coordinates reduced, every early exit included. |
| `P256Points.LimbAddMixed` | src/p256_fixed.cpp:497-536 | The limb code computes the mixed addition formula and keeps coordinates reduced, every early exit included. |
| `P256Points.LimbToAffine` | src/p256_fixed.cpp:538-549 | The limb code computes (X/Z^2, Y/Z^3) with inversion by exponentiation. |
| `P256Points.LimbAddAffine` | src/p256_fixed.cpp:661-675 | The affine addition on limbs is the chord-and-tangent sum, equal and opposite points included. |
| `P256Points.LimbDoubleAffine` | src/p256_fixed.cpp:440-454 | The affine doubling on limbs is the tangent construction, infinity for y = 0 included. |
| `Weierstrass.DoubleIsTangent` | src/p256.cpp:354-438 | Doubling meets the tangent relation: with the slope of the curve at the point, the coordinates are those of the reflected third intersection. |
| `Weierstrass.AddIsChord` | src/p256.cpp:858-961 | Addition of points with different abscissas meets the chord relation. |
| `Weierstrass.DoubleOnCurve` | src/p256.cpp:354-438 | The double of a point of the curve is on the curve. |
| `Weierstrass.AddOnCurve` | src/p256.cpp:858-961 | The sum of any two points of the curve is on the curve. |
| `Weierstrass.MulAdd` | src/p256.cpp:963-1010 | Given associativity, jQ + kQ = (j+k)Q. |
| `Weierstrass.MulMul` | src/p256.cpp:963-1010 | Given associativity, j(kQ) = (jk)Q. |
| `Weierstrass.MulModOrder` | src/p256.cpp:199-213 | Given associativity and nQ = 0, scalars may be reduced modulo n. |
| `Jacobian.DoubleRepresents` | src/p256_fixed.cpp:470-495 | Jacobian doubling of any representative of an on-curve point represents exactly its affine double, infinity and y = 0 included. |
| `Jacobian.AddRepresents` | src/p256_fixed.cpp:497-536 | Mixed addition represents exactly the affine sum for every pair of on-curve points: different, equal, opposite and infinite. |
| `Jacobian.ToAffineCorrect` | src/p256_fixed.cpp:538-549 | Conversion to affine returns the represented point. |
| `Jacobian.ZeroExitsUnreachable` | src/p256_fixed.cpp:488-534 | From a finite on-curve point the zero-z exit of doubling is never the reason for infinity (only y = 0 is), and mixed addition of different abscissas never reaches its own. |
| `Jacobian.OddOrderHasNoZeroY` | src/p256_fixed.cpp:470-475 | Given associativity, no finite point of odd order has y = 0, so even that exit is dead on the prime-order group. |
| `P256.U256FromBe` | src/p256_fixed.cpp:294-318 | Accepts exactly the byte strings below 2^256, leading zeros included. |
| `P256.CoordinateFromBe` | src/p256_fixed.cpp:320-336 | Accepts exactly the 32-byte strings below p. |
| `P256.ToBeBytesMinimal` | src/p256_fixed.cpp:348-370 | The unique minimal big-endian string of the number. |
| `P256.EncodingBijective` | src/p256_fixed.cpp:387-409 | Encoding a curve point and loading it again gives the point, and encodings of finite points are valid. |
| `P256.EncodedCoordinates` | src/p256_fixed.cpp:372-390 | The two 32-byte strings of an encoded point are x and y in this order. |
| `P256.LoadAffine` | src/p256_fixed.cpp:392-409 | Accepts exactly the point at infinity and pairs of 32-byte reduced coordinates, and loads those coordinates. |
| `P256.RequireAffineOnCurve` | src/p256_fixed.cpp:426-438 | Accepts exactly the finite encoded points of the curve. |
| `P256.PointFromCoordinates` | src/p256_fixed.cpp:614-623 | Accepts exactly the coordinates of a finite curve point and returns them unchanged. |
| `P256.PointAdd` | src/p256_fixed.cpp:635-676 | Accepts exactly infinities and valid points; the result encodes the chord-and-tangent sum in every case. |
| `P256.SelectU256` | src/p256_fixed.cpp:591-600 | Returns one number whole, decided by the top bit of any mask. |
| `P256.SelectJacobian` | src/p256_fixed.cpp:602-610 | Returns one point whole, its infinity flag included, decided by the top bit of any mask. |
| `P256.ScalarMultiplyBranchFree` | src/p256_fixed.cpp:678-716 | Given associativity, returns k*Q for every scalar byte string of any length and every valid point; refuses invalid points; infinity for infinity. |
| `P256Reference.DoublePoint` | src/p256.cpp:462-616 | The chain of BigInt calls computes the Jacobian doubling formula, every early exit included. |
| `P256Reference.AddAffinePoint` | src/p256.cpp:618-771 | The chain of BigInt calls computes the mixed addition formula, every early exit included. |
| `P256Reference.IsOnCurve` | src/p256.cpp:292-337 | The two sides of the equation, each by BigInt calls, compare equal exactly when the equation holds. |
| `P256Reference.LoadAffinePoint` | src/p256.cpp:258-290 | Accepts exactly finite points with 32-byte coordinates below p, and loads those coordinates. |
| `P256Reference.Fixed32Bytes` | src/p256.cpp:215-226 | The 32-byte form, which exists exactly below 2^256. |
| `P256Reference.ToAffine` | src/p256.cpp:773-807 | Encodes (X/Z^2, Y/Z^3); the byte conversions never fail. |
| `P256Reference.ScalarMultiply` | src/p256.cpp:963-1010 | The same contract as the branch-free multiplication, for the reference loop over BigInt calls: the two agree on every input. |
| `P256.BasePointWindowTable` | src/p256_fixed.cpp:551-574 | Entry i of the table is i*G, for all sixteen entries. |
| `P256.BasePointSelectWindow` | src/p256_fixed.cpp:723-748 | The masked scan of the table returns (nibble mod 16)*G, infinity flag included. |
| `P256.BasePointMultiplyWindowed` | src/p256_fixed.cpp:750-795 | Given associativity, four doublings and a table entry per nibble give k*G for every scalar byte string. |
| `P256.ScalarInverse` | src/p256_fixed.cpp:802-814 | Exists exactly for scalars that fit and are nonzero modulo n; with n prime it is the true inverse. |
| `P256.ScalarAddMod` | src/p256_fixed.cpp:816-829 | The minimal string of (lhs + rhs) mod n. |
| `P256.ScalarMultiplyMod` | src/p256_fixed.cpp:831-844 | The minimal string of (lhs * rhs) mod n. |
| `P256.ScalarReduceFixed32` | src/p256_fixed.cpp:846-854 | The 32-byte string of the scalar modulo n. |
| `P256.XModOrder` | src/p256_fixed.cpp:856-864 | The minimal string of x mod n, for valid points only. |
| `P256.ScalarIsValidNonzero` | src/p256_fixed.cpp:866-882 | True exactly for 0 < scalar < n. |
| `EcDer.DerReader.ReadLength` | src/ec_der.cpp:87-125 | Accepts exactly the minimal DER length octets (section 8.1.3 and 10.1 of X.690) of a size_t, and consumes exactly those; how far a refused input is read is stated too. |
| `EcDer.DerReader.Read` | src/ec_der.cpp:63-84 | Accepts exactly when the rest of the input begins with a whole element of the tag, returns its content and consumes it; how far a refused input is read is stated too. |
| `EcDer.ReadInteger` | src/ec_der.cpp:173-200 | Accepts exactly the minimal non-negative integers (section 8.3 of X.690) and returns them with the leading zero removed. |
| `EcDer.ParseSignature` | src/ec_der.cpp:403-433 | Accepts exactly the encodings of pairs of minimal integers, and returns the pair. |
| `EcDer.WriteDerLength` | src/ec_der.cpp:492-511 | Appends the short or the minimal long form of the length. |
| `EcDer.WriteDerTlv` | src/ec_der.cpp:513-518 | Appends tag, length octets and content. |
| `EcDer.EncodedIntegerContent` | src/ec_der.cpp:520-538 | Strips leading zeros and restores one where the top bit is set; the empty string becomes one zero byte. |
| `EcDer.EncodeSignature` | src/ec_der.cpp:540-552 | Writes the sequence of the two integers, for any byte strings. |
| `EcDer.ShortSignature` | src/ec_der.cpp:540-552 | For numbers of at most 32 bytes the octets are 30 len 02 len r 02 len s. |
| `EcDer.ContentMeaning` | src/ec_der.cpp:520-538 | The content written is the shortest string of the number with a clear top bit. |
| `EcDer.EncodedInjective` | src/ec_der.cpp:540-552 | Different pairs of minimal integers have different encodings. |
| `EcDer.LengthPrefixFree` | src/ec_der.cpp:492-511 | No length encoding is a prefix of another, over all short and long forms. |
| `EcDer.TlvPrefixFree` | src/ec_der.cpp:513-518 | No element is a prefix of another of the same tag. |
| `EcDer.ContentOfValue` | src/ec_der.cpp:520-538 | The content written for any byte string is legal and reads back as its zero-stripped form. |
| `EcDer.ValueOfContent` | src/ec_der.cpp:173-200 | Every legal content reads as a minimal integer whose content it is. |
| `EcDer.ParseOfEncode` | src/ec_der.cpp:403-552 | parse(encode(r, s)) gives the zero-stripped r and s. |
| `EcDer.EncodeOfParse` | src/ec_der.cpp:403-552 | encode(parse(b)) = b for every accepted b, and b is accepted exactly when it is an encoding. |
| `Ecdsa.Fixed32` | src/ecdsa.cpp:59-68 | The low 32 bytes of the value, padded on the left. |
| `Ecdsa.GreaterThan32` | src/ecdsa.cpp:70-73 | Numeric order of two 32-byte strings. |
| `Ecdsa.Subtract32` | src/ecdsa.cpp:75-95 | The difference modulo 2^256, the borrow chain included. |
| `Ecdsa.OrderBytes` | src/ecdsa.cpp:23-32 | The two byte constants are n and (n-1)/2. |
| `Ecdsa.LowSBytes` | src/ecdsa.cpp:97-105 | The smaller of s and n - s, as 32 bytes, for s below n; for any longer or larger string, what the wrapping code gives. |
| `Ecdsa.Rfc6979P256Sha256.constructor` | src/ecdsa.cpp:110-161 | K and V after steps b to g of section 3.2 of RFC 6979, written out in HMAC, the constant bytes, the scalar and the digest octets. |
| `Ecdsa.Rfc6979P256Sha256.Next` | src/ecdsa.cpp:163-172 | V becomes HMAC(K, V) and is the candidate; K is kept. |
| `Ecdsa.Rfc6979P256Sha256.Reject` | src/ecdsa.cpp:174-194 | K becomes HMAC(K, V ‖ 00), then V is renewed under it. |
| `Ecdsa.FirstStateInjective` | src/ecdsa.cpp:110-161 | For an HMAC without collisions the seed determines the scalar and the digest octets: no two keys or digests share a nonce sequence. |
| `Ecdsa.FirstGoodCandidate` | src/ecdsa.cpp:266-369 | Signing uses the first of sixteen candidates that succeeds, in the sequence seeded with the scalar and the digest modulo n. |
| `Ecdsa.LowSCong` | src/ecdsa.cpp:97-105 | The low form of s lies in [1, (n-1)/2] and is s or -s modulo n. |
| `Ecdsa.SignatureRecovers` | src/ecdsa.cpp:328-364 | From a low-s signature the verifier recovers k or n - k, for every nonce. |
| `Ecdsa.OppositeSameX` | src/ecdsa.cpp:97-105 | (n-k)G is finite and has the abscissa of kG, which is why s may be replaced by n - s. |
| `Ecdsa.SignAttempt` | src/ecdsa.cpp:278-365 | One round of the signing loop with a candidate nonce: rejected exactly when the nonce is out of range or r or s is zero, otherwise r and the low s. |
| `Ecdsa.AttemptWith` | src/ecdsa.cpp:278-365 | One attempt in numbers: r is the abscissa of k G modulo n, s is (e + r d)/k modulo n, negated where it is above (n-1)/2; none where either is zero. |
| `Ecdsa.AttemptVerifies` | src/ecdsa.cpp:241-457 | Whatever pair one signing round returns for d and a digest satisfies the verification equation under d*G, and its s is in [1, (n-1)/2]. |
| `Ecdsa.SignDigest` | src/ecdsa.cpp:241-369 | For every digest and key: the two argument errors, else the DER form of the first accepted attempt of the nonce sequence, else the give-up error. |
| `Ecdsa.VerifyDigest` | src/ecdsa.cpp:371-457 | For every input: the two argument errors, else true exactly when the string is the DER encoding of a pair that satisfies the verification equation. |
| `Ecdsa.VerifiesWith` | src/ecdsa.cpp:404-457 | The equation in numbers: with s w = 1 modulo n, (e w) G + (r w) Q is finite and has abscissa r modulo n. |
| `Ecdsa.SignatureAccepted` | src/ecdsa.cpp:241-457 | Every signature the signing loop returns is accepted under d*G, and its s is in [1, (n-1)/2] (section 6.4 of FIPS 186-5). |
| `Ecdsa.SignThenVerify` | src/ecdsa.cpp:241-457 | Running sign and then verify under d*G returns true for every private scalar in [1, n-1] and every digest, unless signing itself gave up. |
| `Ecdsa.PublicKeyFinite` | src/ecdsa.cpp:211-237 | d*G is finite for every d in [1, n-1], so every private key has a valid public point. |
| `Edwards.UnitImpossible` | src/ed25519.cpp:277-379 | With d not a square, d x1 x2 y1 y2 is neither 1 nor -1 for any two curve points. |
| `Edwards.Complete` | src/ed25519.cpp:277-379 | Both denominators of the addition law are invertible for every pair of curve points, equal ones included. |
| `Edwards.AddOnCurve` | src/ed25519.cpp:277-379 | The sum of any two curve points is on the curve. |
| `EdwardsExtended.AddRepresents` | src/ed25519.cpp:277-379 | The extended-coordinate addition represents exactly the affine sum, for every pair of on-curve points, doubling included. |
| `EdwardsExtended.AddValid` | src/ed25519.cpp:277-379 | point_add keeps T*Z = X*Y, the projective curve equation, reduced coordinates and Z != 0. |
| `EdwardsExtended.ValidHasPoint` | src/ed25519.cpp:277-379 | Every extended point with those invariants represents an affine curve point. |
| `EdwardsExtended.RepresentsIsValid` | src/ed25519.cpp:262-275 | Every representative of a curve point has the invariants. |
| `EdwardsExtended.EqualMeansSamePoint` | src/ed25519.cpp:412-435 | The cross-multiplied comparison is equality of the represented points. |
| `EdwardsExtended.MulAdd` | src/ed25519.cpp:381-410 | Given associativity, jQ + kQ = (j+k)Q. |
| `EdwardsExtended.MulModOrder` | src/ed25519.cpp:185-223 | Given associativity and LQ = 0, scalars may be reduced modulo L. |
| `EdwardsExtended.LadderStep` | src/ed25519.cpp:381-410 | One round of the low-to-high double-and-add loop keeps the partial sum and the running doubling. |
| `Ed25519Points.TwoIsNotSquare` | src/ed25519.cpp:437-561 | 2 is not a square modulo a prime that is 5 modulo 8 and has a root of -1. |
| `Ed25519Points.CurveFacts` | src/ed25519.cpp:24-46 | From the primality of 2^255-19 alone: the constant is a root of -1, d is not a square, so the addition law is complete. |
| `Ed25519Points.ConstantOrigins` | src/ed25519.cpp:24-64 | p = 2^255 - 19, L = 2^252 + c, 121666 d = -121665 and 5 y = 4 modulo p for the base point, whose x is even. |
| `Ed25519Points.BasePointOnCurve` | src/ed25519.cpp:60-64 | The base point satisfies the curve equation. |
| `Ed25519Points.RootOrCorrected` | src/ed25519.cpp:507-544 | For every square a, a^((p+3)/8) or that times sqrt(-1) is a root of a. |
| `Ed25519Points.DenominatorNonzero` | src/ed25519.cpp:464-505 | For any prime with a root of -1 and any d that is not a square, d y^2 + 1 is never zero. |
| `Ed25519Points.CurveOverY` | src/ed25519.cpp:464-505 | The curve equation holds for (x, y) exactly when x^2 is the (y^2-1)/(d y^2+1) the code computes. |
| `Ed25519Points.EncodeIsCompress` | src/ed25519.cpp:570-599 | Encoding any representative of a curve point gives y with the parity of x in the top bit. |
| `Ed25519Points.CompressNumber` | src/ed25519.cpp:570-599 | The 32 bytes spell y + 2^255 (x mod 2), least significant byte first. |
| `Ed25519Points.DecodeOfCompress` | src/ed25519.cpp:437-561 | Decoding the compressed form of a curve point succeeds with exactly that point. |
| `Ed25519Points.CompressOfDecode` | src/ed25519.cpp:437-561 | Whatever is accepted is the compressed form of the curve point it decodes to. |
| `Ed25519Points.EncodeOfDecode` | src/ed25519.cpp:437-599 | encode_point(decode_point(b)) = b for every accepted b (sections 5.1.2 and 5.1.3 of RFC 8032). |
| `Ed25519Points.DecodeOfEncode` | src/ed25519.cpp:437-599 | decode_point(encode_point(P)) succeeds and equals P projectively for every valid extended point. |
| `Ed25519Big.ToFixedLeBytes` | src/ed25519.cpp:169-183 | Succeeds exactly when the value fits the size, and then is its little-endian form. |
| `Ed25519Big.IsOdd` | src/ed25519.cpp:156-161 | The last byte of the minimal string tells the parity of the number. |
| `Ed25519Big.ScalarIsCanonical` | src/ed25519.cpp:225-238 | True exactly below the group order. |
| `Ed25519Big.AddPoints` | src/ed25519.cpp:277-379 | The chain of BigInt calls computes the extended-coordinate addition. |
| `Ed25519Big.SamePoint` | src/ed25519.cpp:412-435 | The four products and two comparisons decide projective equality. |
| `Ed25519Big.Root` | src/ed25519.cpp:507-544 | Returns the candidate root, corrected by sqrt(-1) when needed, and whether its square is the argument. |
| `Ed25519Big.Decode` | src/ed25519.cpp:437-561 | The chain of BigInt calls accepts exactly what the decoding function accepts, with the same point, and refuses the rest with the one error. |
| `Ed25519Big.Encode` | src/ed25519.cpp:570-599 | The chain of BigInt calls computes the encoding function; the byte conversion never fails. |
| `Ed25519.ScalarBitIsBit` | src/ed25519.cpp:240-245 | The fetched bit is that bit of the little-endian number. |
| `Ed25519.ScalarMultiply` | src/ed25519.cpp:381-410 | Given the group facts, returns a representative of k*Q for every scalar string of any length. |
| `Ed25519.ClampedRange` | src/ed25519.cpp:563-568 | A clamped scalar is a multiple of 8 in [2^254, 2^255). |
| `Ed25519.ClampScalar` | src/ed25519.cpp:563-568 | The three in-place bit operations leave 2^254 + a mod 2^254 - a mod 8 of the number a. |
| `Ed25519.BasePointDecodes` | src/ed25519.cpp:60-64 | The encoded base point decodes to the base point. |
| `Ed25519.SignSeed` | src/ed25519.cpp:651-753 | For every seed: the argument errors, else R ‖ S with S = r + H(R, A, M) a modulo L (section 5.1.6 of RFC 8032). |
| `Ed25519.SignatureNumbers` | src/ed25519.cpp:651-753 | The signature in numbers: R encodes r B, S = r + H(R, A, M) a modulo L, with r and the clamped a from the two halves of the hashed seed. |
| `Ed25519.Verify` | src/ed25519.cpp:766-838 | For every input: the errors of the code in their order, else true exactly when S < L, both points decode and S*B = R + h*A (section 5.1.7 of RFC 8032). |
| `Ed25519.AcceptsNumbers` | src/ed25519.cpp:766-838 | Verification in numbers: with R and A the points the strings encode, S < L and S B = R + H(R, A, M) A. |
| `Ed25519.SignatureEquation` | src/ed25519.cpp:651-838 | (r + h a mod L) B = rB + h(aB) for all r, h and a. |
| `Ed25519.SignatureAccepted` | src/ed25519.cpp:651-838 | Every signature is accepted under the encoded public point of its seed. |
| `Ed25519.SignThenVerify` | src/ed25519.cpp:651-838 | Running sign and then verify returns true for every 32-byte seed and every message. |
| `MaskGeneration.Mgf1` | src/rsa_pss.cpp:57-84 | The counter loop returns the first n bytes of the mask, for every n. |
| `MaskGeneration.MaskByte` | src/rsa_pss.cpp:57-84 | Byte i of the mask is byte i mod hLen of H(seed ‖ counter i / hLen) (section B.2.1 of RFC 8017). |
| `MaskGeneration.MaskByteOf` | src/rsa_pss.cpp:49-84 | The same with the counter written out: its four bytes spell i / hLen modulo 2^32. |
| `RsaPss.EmsaPssEncode` | src/rsa_pss.cpp:96-154 | For every input: the two kinds of error, else maskedDB ‖ H ‖ BC with the unused bits cleared (section 9.1.1 of RFC 8017). |
| `RsaPss.EncodedParts` | src/rsa_pss.cpp:86-154 | The encoding part by part: the masked block in ceil(bits / 8) bytes, H of eight zeros, the message hash and the salt, then BC. |
| `RsaPss.MaskedBytes` | src/rsa_pss.cpp:122-153 | The masked block byte by byte: 00..00 01 salt, each byte plus the byte of the mask, with the unused bits of the first one cleared. |
| `RsaPss.EmsaPssVerify` | src/rsa_pss.cpp:156-221 | Accepts an encoding if and only if it is the encoding of the hash with some salt of the required length, for every length and every count of unused bits. |
| `RsaPss.UnmaskOfMask` | src/rsa_pss.cpp:136-203 | Masking twice restores a data block whose unused bits are clear. |
| `RsaPss.ChecksDecide` | src/rsa_pss.cpp:176-220 | The checks the code accumulates in masks hold exactly for the encodings. |
| `RsaPss.CombineMasks` | src/rsa_pss.cpp:176-220 | The combined mask is all ones exactly when every single check holds, with no early exit. |
| `RsaPss.EncodeThenVerify` | src/rsa_pss.cpp:96-221 | Running encode and then verify returns true for every message hash, salt and length the encoder takes, and its error otherwise. |
| `RsaPss.GuardExact` | src/rsa_pss.cpp:172-175 | The length guard in 64-bit arithmetic is the intended one if and only if the sum of hash size, salt length and 2 stays below 2^64 or wraps beyond the size. |
| `RsaPss.GuardWraps` | src/rsa_pss.cpp:172-175 | An input where they differ: SHA-256, 256 bytes and a salt length of 2^64 - 1 pass the guard of the code. |
| `RsaOaep.EmeOaepEncode` | src/rsa_oaep.cpp:89-152 | For every input: the two kinds of error, else 00 ‖ maskedSeed ‖ maskedDB (section 7.1.1 of RFC 8017). |
| `RsaOaep.EncodingBytes` | src/rsa_oaep.cpp:109-152 | The encoding byte by byte: 00, the masked seed, and the digest of the label, zeros, 01 and the message under the mask of the seed. |
| `RsaOaep.ScanSeparator` | src/rsa_oaep.cpp:201-214 | The masked scan finds the first 01 after zeros, and its masks are valid exactly when there is one. |
| `RsaOaep.SeparatorUnique` | src/rsa_oaep.cpp:201-214 | A data block has at most one separator. |
| `RsaOaep.EmeOaepDecode` | src/rsa_oaep.cpp:154-222 | Returns m if and only if the input is the encoding of m with some seed; every other input gives the one authentication error. |
| `RsaOaep.DecodeDecides` | src/rsa_oaep.cpp:174-221 | The leading byte, label hash and separator checks hold exactly for the encodings, and then the message is what follows the separator. |
| `RsaOaep.EncodeThenDecode` | src/rsa_oaep.cpp:89-222 | Running encode and then decode returns the message, for every size, seed and label. |
| `RsaOaep.EncodeThenDecodeUnder` | src/rsa_oaep.cpp:89-222 | A message encoded under one label and decoded under another comes back exactly when the labels have one hash, and is refused otherwise. |
| `AesTables.SboxInverse` | src/aes.cpp:13-47 | The two 256-entry tables are inverse permutations. |
| `AesStandard.SboxIsStandard` | src/aes.cpp:13-29 | Every entry is the affine map of section 5.1.1 of FIPS 197 applied to the inverse of its index in GF(2^8). |
| `Aes.ProductLinear` | src/aes.cpp:77-90 | The shift-and-add multiplication is linear over xor in its first operand. |
| `Aes.Multiply` | src/aes.cpp:77-90 | The loop computes that product for all bytes. |
| `Aes.ColumnInverse` | src/aes.cpp:154-184 | The inverse column mix undoes the column mix, for every column. |
| `Aes.SubBytesInverse` | src/aes.cpp:104-118 | Inverse byte substitution undoes byte substitution. |
| `Aes.ShiftRowsInverse` | src/aes.cpp:120-152 | Inverse row shift undoes row shift. |
| `Aes.MixColumnsInverse` | src/aes.cpp:154-184 | The in-place column steps undo each other on whole states. |
| `Aes.AddRoundKeyTwice` | src/aes.cpp:92-102 | Adding a round key twice changes nothing. |
| `Aes.SubBytesInPlace` | src/aes.cpp:104-110 | The in-place loop substitutes all sixteen bytes. |
| `Aes.ShiftRowsInPlace` | src/aes.cpp:120-135 | The in-place assignments rotate the three rows. |
| `Aes.InvShiftRowsInPlace` | src/aes.cpp:137-152 | The in-place assignments rotate the three rows back. |
| `Aes.AddRoundKeyInPlace` | src/aes.cpp:92-102 | The in-place loop adds the four words of the round, byte by byte. |
| `Aes.MixColumnsInPlace` | src/aes.cpp:154-168 | The in-place loop mixes the four columns. |
| `Aes.InvMixColumnsInPlace` | src/aes.cpp:170-184 | The in-place loop unmixes the four columns. |
| `Aes.UnroundsOfRounds` | src/aes.cpp:267-302 | The decryption rounds undo the encryption rounds for any number of rounds and any key words. |
| `Aes.DecryptOfEncrypt` | src/aes.cpp:257-305 | decrypt_block undoes encrypt_block for every block and every cipher object (section 5.3 of FIPS 197). |
| `Aes.EncryptBlock` | src/aes.cpp:257-280 | Sixteen bytes are encrypted by the in-place rounds; other sizes are refused. |
| `Aes.DecryptBlock` | src/aes.cpp:282-305 | Sixteen bytes are decrypted by the in-place rounds; other sizes are refused. |
| `Aes.RconTable` | src/aes.cpp:49-49 | The ten round constants are the powers of x modulo x^8 + x^4 + x^3 + x + 1 (section 5.2 of FIPS 197). |
| `AesStandard.ShiftRowsByIndex` | src/aes.cpp:120-135 | Byte (r, c) comes from (r, c + r mod 4) (section 5.1.2 of FIPS 197). |
| `AesStandard.MixColumnsByIndex` | src/aes.cpp:154-168 | Each column is multiplied by the matrix with rows 02 03 01 01, rotated (section 5.1.3 of FIPS 197). |
| `AesStandard.AddRoundKeyByIndex` | src/aes.cpp:92-102 | Column c takes the bytes of word 4 round + c, most significant first (section 5.1.4 of FIPS 197). |
| `AesStandard.EncryptByRounds` | src/aes.cpp:257-279 | Encryption runs through the states of figure 5 of FIPS 197, the last round without the column mix. |
| `AesStandard.ExpandedIs` | src/aes.cpp:231-252 | 10, 12 or 14 rounds, and all their words from the schedule. |
| `AesStandard.ScheduleStart` | src/aes.cpp:235-238 | The first words are the bytes of the key, most significant first. |
| `AesStandard.ScheduleRecurrence` | src/aes.cpp:240-252 | The schedule word by word for the three key sizes, with the extra substitution for 256-bit keys (section 5.2 of FIPS 197). |
| `Aes.Create` | src/aes.cpp:223-255 | Accepts exactly the three key sizes; the loop fills the schedule of section 5.2 of FIPS 197. |
| `AesCbc.UnchainOfChain` | src/aes_cbc.cpp:67-141 | CBC decryption undoes CBC encryption for every message and IV. |
| `AesCbc.ChainBlock` | src/aes_cbc.cpp:67-101 | Block k of the ciphertext encrypts block k of the input plus block k - 1 of the ciphertext, or the initialisation vector (section 6.2 of SP 800-38A). |
| `AesCbc.PaddedIsPad` | src/aes_cbc.cpp:144-173 | A block-aligned text is the padding of m exactly when its last byte counts equal last bytes, and m is what precedes them. |
| `AesCbc.PaddingBytes` | src/aes_cbc.cpp:67-101 | One to sixteen bytes are added, each with their number as its value (section 6.3 of RFC 5652). |
| `AesCbc.RemovePadding` | src/aes_cbc.cpp:144-173 | The masked scan accepts exactly the padded texts and removes exactly the padding. |
| `AesCbc.AesCbcContext.Update` | src/aes_cbc.cpp:40-49 | Appends to the buffer, or fails once finalised. |
| `AesCbc.AesCbcContext.Final` | src/aes_cbc.cpp:51-64 | Returns the one-shot result on everything buffered, once; later calls fail. |
| `AesCbc.AesCbcContext.EncryptFinal` | src/aes_cbc.cpp:67-101 | Pads or refuses, then chains every block. |
| `AesCbc.AesCbcContext.DecryptFinal` | src/aes_cbc.cpp:103-142 | Refuses empty and unaligned inputs, unchains every block, then checks and removes the padding. |
| `AesCbc.Run` | src/aes_cbc.cpp:32-180 | For every split of the input into updates the context computes the one-shot result. |
| `AesCbc.DecryptOfEncryptResult` | src/aes_cbc.cpp:67-142 | Whatever encryption returns decrypts to the message, in both padding modes. |
| `AesCbc.DecryptAccepts` | src/aes_cbc.cpp:103-173 | Padded decryption returns m exactly when the unchained text is the padding of m. |
| `AesCbc.EncryptThenDecrypt` | src/aes_cbc.cpp:32-180 | Encrypting in any chunks and decrypting in any chunks, however the ciphertext is cut, returns the message. |
| `Gf128.GfProductIsProduct` | src/aes_gcm.cpp:100-119 | The block loop computes the polynomial product modulo x^128 + x^7 + x^2 + x + 1 (section 6.3 of NIST SP 800-38D). |
| `Gf128.PolyCoefficient` | src/aes_gcm.cpp:84-87 | Bit i of a block, from the top bit of its first byte, is the coefficient of x^i (section 6.3 of NIST SP 800-38D). |
| `Gf128.ProductUnique` | src/aes_gcm.cpp:100-119 | It is the only block congruent to the product. |
| `Gf128.GfCommutes` | src/aes_gcm.cpp:100-119 | gf_multiply is commutative. |
| `Gf128.GfDistributes` | src/aes_gcm.cpp:100-119 | gf_multiply is linear over xor in both operands. |
| `Gf128.ShiftRightOne` | src/aes_gcm.cpp:89-98 | The in-place byte loop shifts the whole block right by one bit. |
| `Gf128.GfMultiply` | src/aes_gcm.cpp:100-119 | The loop over the 128 bits computes that product. |
| `Polynomials.ProductDegree` | src/aes_gcm.cpp:100-119 | The degree of a product is the sum of the degrees, which makes the reduced remainder unique. |
| `AesGcm.Inc32InPlace` | src/aes_gcm.cpp:159-169 | The in-place carry loop is the 32-bit increment. |
| `AesGcm.Inc32Value` | src/aes_gcm.cpp:159-169 | inc32 adds one to the last word modulo 2^32 and keeps the first twelve bytes. |
| `AesGcm.CountersDistinct` | src/aes_gcm.cpp:184-207 | Two counter blocks are equal exactly when their indices agree modulo 2^32. |
| `AesGcm.MaskCountersDistinct` | src/aes_gcm.cpp:184-239 | For messages up to 2^32 - 1 blocks the counters used are pairwise distinct and none is J0, the tag's counter. |
| `AesGcm.GctrTwice` | src/aes_gcm.cpp:184-207 | GCTR undoes itself for every text, a partial last block included. |
| `AesGcm.GctrByte` | src/aes_gcm.cpp:184-207 | Byte k is xored with byte k mod 16 of the encryption of counter k / 16. |
| `AesGcm.GctrBytes` | src/aes_gcm.cpp:184-207 | The block loop computes GCTR. |
| `AesGcm.GhashIsStandard` | src/aes_gcm.cpp:133-157 | The three-part GHASH is one GHASH over the zero-padded data, text and lengths (section 7.1 of NIST SP 800-38D). |
| `AesGcm.GhashBlock` | src/aes_gcm.cpp:133-144 | Each block is added to the hash so far and the sum multiplied by H (section 6.4 of NIST SP 800-38D). |
| `AesGcm.PaddingIsZeros` | src/aes_gcm.cpp:133-144 | A last partial block is filled up with zeros. |
| `AesGcm.LengthsValue` | src/aes_gcm.cpp:152-154 | The last block is the bit length of the data times 2^64 plus that of the text, each modulo 2^64. |
| `AesGcm.GhashBytes` | src/aes_gcm.cpp:133-157 | The loops compute GHASH. |
| `AesGcm.MakeJ0` | src/aes_gcm.cpp:215-226 | J0 is the nonce with counter 1 for twelve bytes, and otherwise one GHASH over the zero-padded nonce and its length block (section 7.1 of NIST SP 800-38D). |
| `AesGcm.RefusalCases` | src/aes_gcm.cpp:17-74 | Refused in this order: a key of the wrong size, an empty nonce or a tag outside 12 to 16 bytes. |
| `AesGcm.Definitions` | src/aes_gcm.cpp:228-300 | The ciphertext is GCTR from inc32(J0), the tag block GHASH plus the encryption of J0 (section 7.1 of NIST SP 800-38D). |
| `AesGcm.AesGcmEncrypt` | src/aes_gcm.cpp:243-284 | For every input: the error of the first failed check, else the ciphertext and the truncated tag. |
| `AesGcm.AesGcmDecrypt` | src/aes_gcm.cpp:286-332 | For every input: the error of the first failed check, else the plaintext exactly when the tag is the one of the ciphertext. |
| `AesGcm.EncryptThenDecrypt` | src/aes_gcm.cpp:243-332 | Decryption of every encryption result returns the plaintext. |
| `Sha2Spec.PaddedSize` | src/sha2.cpp:255-265 | A padded message is a whole number of blocks. |
| `Sha2Spec.PaddingBytes` | src/sha2.cpp:246-265 | 80, fewer zeros than a block has bytes, and the length in bits modulo 2^64 or 2^128, most significant byte first. |
| `Sha2Spec.ZeroCountIs` | src/sha2.cpp:255-264 | The number of zero bytes the code writes, in one or two last blocks, is that of section 5.1 of FIPS 180-4. |
| `Sha2Spec.FoldSnoc` | src/sha2.cpp:236-240 | Absorbing one more block is one more compression. |
| `Sha2.Absorb` | src/sha2.cpp:228-241 | The copy-and-transform loop keeps the state equal to the fold over all whole blocks seen and the buffer equal to the rest. |
| `Sha2.Finish` | src/sha2.cpp:255-273 | From such a state the final blocks give the hash of the whole message. |
| `Sha2.WideStep` | src/sha2.cpp:341-347 | The two-word bit counter with its carry is 8 * length modulo 2^128 after every update. |
| `Sha2.CountBits` | src/sha2.cpp:341-347 | The counter code keeps that for any update length. |
| `Sha2.Sha256Context.constructor` | src/sha2.cpp:214-217 | The empty message, with the initial words. |
| `Sha2.Sha256Context.Update` | src/sha2.cpp:219-244 | Appends to the message, or fails once finalised; keeps the invariant tying state, buffer and counter to the message. |
| `Sha2.Sha256Context.Final` | src/sha2.cpp:246-274 | Returns the hash of everything absorbed, once; later calls fail. |
| `Sha2.Sha512Context.constructor` | src/sha2.cpp:328-332 | The empty message, with the initial words. |
| `Sha2.Sha512Context.Update` | src/sha2.cpp:334-365 | Appends to the message, or fails once finalised; keeps the invariant, the 128-bit counter included. |
| `Sha2.Sha512Context.Final` | src/sha2.cpp:367-396 | Returns the hash of everything absorbed, once; later calls fail. |
| `Sha2Rounds.Transform256` | src/sha2.cpp:276-326 | The loops over the schedule array and the eight working variables compute the SHA-256 compression function, defined by recursion over the rounds (section 6.2.2 of FIPS 180-4). |
| `Sha2Rounds.Transform512` | src/sha2.cpp:398-448 | The same for SHA-512 (section 6.4.2 of FIPS 180-4). |
| `Sha2Standard.K256IsCubeRoot` | src/sha2.cpp:62-127 | The round constants of SHA-256 are the fractions of the cube roots of the first 64 primes. |
| `Sha2Standard.K512IsCubeRoot` | src/sha2.cpp:129-210 | The round constants of SHA-512 are the fractions of the cube roots of the first 80 primes. |
| `Sha2Standard.PrimesInOrder` | src/sha2.cpp:62-210 | The list used for both is that of all primes up to 409 in order. |
| `Sha2Standard.Initial256IsSquareRoot` | src/sha2.cpp:214-217 | The initial words of SHA-256 are the fractions of the square roots of the first eight primes. |
| `Sha2Standard.Initial512IsSquareRoot` | src/sha2.cpp:328-332 | The initial words of SHA-512 are the fractions of the square roots of the first eight primes. |
| `Sha2Standard.BigSigma0Of256Bit` | src/sha2.cpp:304-304 | Bit j is the sum of bits j + 2, j + 13 and j + 22 modulo 32 (section 4.1.2 of FIPS 180-4). |
| `Sha2Standard.BigSigma1Of256Bit` | src/sha2.cpp:301-301 | Bit j is the sum of bits j + 6, j + 11 and j + 25 modulo 32. |
| `Sha2Standard.SmallSigma0Of256Bit` | src/sha2.cpp:285-285 | Bit j is the sum of bits j + 7 and j + 18 modulo 32, and of bit j + 3 where there is one. |
| `Sha2Standard.SmallSigma1Of256Bit` | src/sha2.cpp:286-286 | Bit j is the sum of bits j + 17 and j + 19 modulo 32, and of bit j + 10 where there is one. |
| `Sha2Standard.BigSigma0Of512Bit` | src/sha2.cpp:426-426 | Bit j is the sum of bits j + 28, j + 34 and j + 39 modulo 64 (section 4.1.3 of FIPS 180-4). |
| `Sha2Standard.BigSigma1Of512Bit` | src/sha2.cpp:423-423 | Bit j is the sum of bits j + 14, j + 18 and j + 41 modulo 64. |
| `Sha2Standard.SmallSigma0Of512Bit` | src/sha2.cpp:407-407 | Bit j is the sum of bits j + 1 and j + 8 modulo 64, and of bit j + 7 where there is one. |
| `Sha2Standard.SmallSigma1Of512Bit` | src/sha2.cpp:408-408 | Bit j is the sum of bits j + 19 and j + 61 modulo 64, and of bit j + 6 where there is one. |
| `Sha2Standard.ChChooses32` | src/sha2.cpp:302-302 | Ch takes y where x has ones and z where it has zeros. |
| `Sha2Standard.MajAgrees32` | src/sha2.cpp:305-305 | Maj takes x where x and y agree and z where they do not. |
| `Sha2Standard.ChChooses64` | src/sha2.cpp:424-424 | Ch takes y where x has ones and z where it has zeros. |
| `Sha2Standard.MajAgrees64` | src/sha2.cpp:427-427 | Maj takes x where x and y agree and z where they do not. |
| `Sha2Vectors.AbcDigest256` | src/sha2.cpp:214-326 | Padding, schedule, rounds and output on one block: the SHA-256 digest of "abc". |
| `Sha2Vectors.AbcDigest512` | src/sha2.cpp:328-448 | Padding, schedule, rounds and output on one block: the SHA-512 digest of "abc". |
| `Sha2.HashChunks256` | src/sha2.cpp:214-274 | For every split of a message into updates the digest is that of the padded message (section 6.2 of FIPS 180-4). |
| `Sha2.HashChunks512` | src/sha2.cpp:328-396 | The same for SHA-512 (section 6.4 of FIPS 180-4). |
| `Hmac.NormalizedKeyIs` | src/hmac.cpp:61-101 | The block-sized key is the zero-padded key, or the zero-padded hash of a longer one; nothing is cut off. |
| `Hmac.MacIs` | src/hmac.cpp:61-159 | The code written out: H over the outer pad and H over the inner pad and the message, for every key length (section 2 of RFC 2104). |
| `Hmac.HmacContext.constructor` | src/hmac.cpp:61-101 | The pads of the normalised key, and an inner hash that has absorbed the inner pad, for keys of any length. |
| `Hmac.HmacContext.Update` | src/hmac.cpp:108-120 | Appends to the message, or fails once finalised. |
| `Hmac.HmacContext.Final` | src/hmac.cpp:122-159 | Returns H(opad ‖ H(ipad ‖ m)) on everything absorbed, once; later calls fail. |
| `Hmac.MacChunks` | src/hmac.cpp:61-159 | For every key and every split of a message into updates the result is the HMAC of section 2 of RFC 2104. |
| `Instances.DigestSizes` | src/sha2.cpp:267-273 | SHA-256 digests have 32 bytes and SHA-512 digests 64, for every message. |
| `Instances.Sha256OfChunks` | src/sha2.cpp:214-326 | SHA-256 with its own compression function, for every split of a message. |
| `Instances.Sha512OfChunks` | src/sha2.cpp:328-448 | SHA-512 with its own compression function, for every split of a message. |
| `Instances.HmacSha256OfChunks` | src/hmac.cpp:61-159 | HMAC over that SHA-256, for every key and every split of a message. |
| `Instances.PssEncodeThenVerify` | src/rsa_pss.cpp:96-221 | EMSA-PSS over SHA-256: encode, then verify, returns true whenever the encoder accepts. |
| `Instances.OaepEncodeThenDecode` | src/rsa_oaep.cpp:89-222 | EME-OAEP over SHA-256: encode, then decode, returns the message. |
| `Instances.EcdsaSignThenVerify` | src/ecdsa.cpp:39-52 | ECDSA with the nonce generator over HMAC-SHA-256: sign, then verify, returns true unless signing itself gave up. |
| `Instances.Ed25519SignThenVerify` | src/ed25519.cpp:601-838 | Ed25519 over SHA-512: sign, then verify, returns true. |

## Left out

- Ecdsa.SignDigest: takes the private scalar where the source takes a DER private key, and any HMAC; key parsing is not modelled, and `Instances` puts HMAC-SHA-256 in.
- Ecdsa.VerifyDigest: takes the public coordinates where the source takes a DER public key, and inputs below 2^64 bytes; its exactness is stated under the group hypotheses because the multiplications it calls are.
- P256Reference.ScalarMultiply: the kind of error for an invalid point is not stated; `p256_point_add` and the arithmetic modulo n of `src/p256.cpp` are not modelled.
- RsaPss.EmsaPssVerify: the contract is that of the guard meant; for a salt length whose sum wraps, where the code would read past the data block, nothing is modelled beyond `RsaPss.GuardExact`.
- Sha2.Sha256Context.Final: for any compression function; that of `transform` is `Sha2Rounds.Compress256`, put in by `Instances`.
- Sha2.Sha512Context.Final: for any compression function; that of `transform` is `Sha2Rounds.Compress512`, put in by `Instances`.
- Ed25519.SignSeed: takes the hash as a function where the source runs a context; that the context computes it is `Instances.Sha512OfChunks`.
- Ed25519.Verify: takes the hash as a function, as for signing.
- Aes.Create: the wiping of round keys and moved-from cipher objects are not modelled.
- `RsaFixedBigInt` `add`, `equal_mask` and `montgomery_r_squared`: not on any path to the exponentiation.
- The provider interface, the OpenSSL provider, random numbers, versions and key stores: foreign calls and plumbing.
- SPKI, PKCS#8, SEC1 and PKCS#1 containers: the same reader with more tags.
- Base64, PEM, PBKDF2 and HKDF: thin loops that would add easy members.
- Error message texts, and error branches that no input reaches.
- Running time, zeroisation and constant-time claims: only the values the mask code computes.
- Cryptographic strength: no claim about forging, guessing or randomness.
