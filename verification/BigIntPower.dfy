/** Modular exponentiation on arbitrary-length integers, `src/bigint.cpp`: square and multiply, the
    ladder for even moduli, and the variable-width Montgomery ladder. */
module BigIntPower {
  import opened NumberTheory
  import opened Digits
  import opened Masks
  import opened Montgomery
  import opened MontgomeryLoops
  import opened LimbLoops
  import opened BigInt
  import opened Results

  // ----- square and multiply -----

  /** One more low bit of the exponent. */
  lemma LowBitsStep(e: nat, i: nat)
    ensures Pow(2, i) > 0 && Pow(2, i + 1) > 0
    ensures e % Pow(2, i + 1) == Bit(e, i) * Pow(2, i) + e % Pow(2, i)
  {
    PowPositive(2, i);
    PowStep(2, i);
    DivDiv(e, Pow(2, i), 2);
    assert Pow(2, i) * 2 == Pow(2, i + 1);
  }

  lemma PowerStep(result: int, power: int, b: int, e: nat, i: nat, m: int)
    requires m > 0 && Pow(2, i) > 0 && e % Pow(2, i) >= 0
    requires Cong(result, Pow(b, e % Pow(2, i)), m) && Cong(power, Pow(b, Pow(2, i)), m)
    ensures Pow(2, i + 1) > 0 && e % Pow(2, i + 1) >= 0
    ensures Bit(e, i) == 0 ==> Cong(result, Pow(b, e % Pow(2, i + 1)), m)
    ensures Bit(e, i) == 1 ==> Cong(result * power, Pow(b, e % Pow(2, i + 1)), m)
    ensures Cong(power * power, Pow(b, Pow(2, i + 1)), m)
  {
    LowBitsStep(e, i);
    PowStep(2, i);
    hide Bit;
    var r, p := e % Pow(2, i), Pow(2, i);
    PowAdd(b, r, p);
    PowAdd(b, p, p);
    CongMul(result, Pow(b, r), power, Pow(b, p), m);
    CongMul(power, Pow(b, p), power, Pow(b, p), m);
  }

  method ModExp(base: Big, exponent: Big, modulus: Big) returns (r: Result<Big>)
    ensures r.Ok? <==> modulus.Value() > 0
    ensures r.Ok? ==> r.value.Value() == Pow(base.Value(), exponent.Value()) % modulus.Value()
  {
    ZeroIff(modulus);
    if modulus.IsZero() {
      return Err(InvalidArgument);
    }
    ghost var b, e, m := base.Value(), exponent.Value(), modulus.Value();
    OneValue();
    var result := Mod(ONE, modulus);
    var power := Mod(base, modulus);
    var bits := BitLength(exponent);
    CongMod(1, m);
    CongMod(b, m);
    FirstBit(b, e);
    for i := 0 to bits
      invariant Pow(2, i) > 0 && e % Pow(2, i) >= 0 && result.Value() < m
      invariant Cong(result.Value(), Pow(b, e % Pow(2, i)), m)
      invariant Cong(power.Value(), Pow(b, Pow(2, i)), m)
    {
      BitAtIsBit(exponent, i);
      PowerStep(result.Value(), power.Value(), b, e, i, m);
      if BitAt(exponent, i) == 1 {
        result := MultiplyMod(result, power, modulus);
      }
      power := MultiplyMod(power, power, modulus);
    }
    NumBitsBounds(e);
    ModSmall(e, Pow(2, bits));
    ModSmall(result.Value(), m);
    r := Ok(result);
  }

  lemma FirstBit(b: int, e: nat)
    ensures Pow(2, 0) == 1 && e % 1 == 0 && Pow(b, 1) == b
  {
    assert Pow(b, 1) == b * Pow(b, 0);
  }

  /** `mod(multiply(lhs, rhs), modulus)`, the step of every exponentiation loop. */
  method MultiplyMod(lhs: Big, rhs: Big, modulus: Big) returns (r: Big)
    requires modulus.Value() > 0
    ensures r.Value() < modulus.Value()
    ensures Cong(r.Value(), lhs.Value() * rhs.Value(), modulus.Value())
  {
    var product := Multiply(lhs, rhs);
    r := Mod(product, modulus);
    CongMod(product.Value(), modulus.Value());
  }

  // ----- ladders -----

  /** Keeps `width` limbs of the number the mask chooses. */
  method ConstantTimeSelect(mask: bv8, ifSet: Big, ifClear: Big, width: nat) returns (r: Big)
    ensures Pow(BASE, width) > 0
    ensures r.Value() == (if mask & 0x80 != 0 then ifSet else ifClear).Value() % Pow(BASE, width)
  {
    var wordMask := WordMaskFromByte(mask);
    WordMaskCases(mask);
    ghost var chosen := if mask & 0x80 != 0 then ifSet else ifClear;
    var output := new Word[width](_ => 0);
    for i := 0 to width
      invariant output[..i] == FixedLimbs(chosen.limbs, i)
    {
      var setLimb: Word := if i < |ifSet.limbs| then ifSet.limbs[i] else 0;
      var clearLimb: Word := if i < |ifClear.limbs| then ifClear.limbs[i] else 0;
      MaskWordChooses(setLimb, clearLimb);
      output[i] := MaskWord(wordMask, setLimb, clearLimb);
    }
    assert output[..width] == output[..];
    FixedLimbsValue(chosen.limbs, width);
    r := Normalize(output[..]);
  }

  /** The lowest `size` limbs, zero-extended. */
  function FixedLimbs(limbs: seq<Word>, size: nat): (r: seq<Word>)
    ensures |r| == size
  {
    seq(size, i requires 0 <= i < size => if i < |limbs| then limbs[i] else 0)
  }

  lemma FixedLimbsValue(limbs: seq<Word>, size: nat)
    ensures Pow(BASE, size) > 0 && Val(FixedLimbs(limbs, size)) == Val(limbs) % Pow(BASE, size)
  {
    PowPositive(BASE, size);
    if size <= |limbs| {
      assert FixedLimbs(limbs, size) == limbs[..size];
      LeDivMod(limbs, size, BASE);
    } else {
      var zeros := seq(size - |limbs|, _ => 0 as Word);
      assert FixedLimbs(limbs, size) == limbs + zeros;
      LeZeros(zeros, BASE);
      LeConcat(limbs, zeros, BASE);
      ValBound(limbs);
      PowMonotone(BASE, |limbs|, size);
      ModSmall(Val(limbs), Pow(BASE, size));
    }
  }

  /** Selecting between two residues keeps all their limbs. */
  method SelectResidue(bit: nat, ifSet: Big, ifClear: Big, modulus: Big) returns (r: Big)
    requires bit <= 1 && ifSet.Value() < modulus.Value() && ifClear.Value() < modulus.Value()
    ensures r.Value() == if bit == 1 then ifSet.Value() else ifClear.Value()
  {
    ValBound(modulus.limbs);
    r := ConstantTimeSelect(BitMask(bit), ifSet, ifClear, |modulus.limbs|);
    ModSmall(ifSet.Value(), Pow(BASE, |modulus.limbs|));
    ModSmall(ifClear.Value(), Pow(BASE, |modulus.limbs|));
  }

  /** Exponentiation over a fixed number of bits; odd moduli go through the Montgomery domain. */
  method ModExpSecret(base: Big, exponent: Big, modulus: Big, exponentBits: nat) returns (r: Result<Big>)
    ensures r.Ok? <==> modulus.Value() > 0 && NumBits(exponent.Value()) <= exponentBits
    ensures r.Ok? ==> r.value.Value() == Pow(base.Value(), exponent.Value()) % modulus.Value()
  {
    ZeroIff(modulus);
    if modulus.IsZero() {
      return Err(InvalidArgument);
    }
    var bits := BitLength(exponent);
    if bits > exponentBits {
      return Err(InvalidArgument);
    }
    if modulus.limbs[0] % 2 == 1 {
      r := ModExpSecretMontgomery(base, exponent, modulus, exponentBits);
      return;
    }
    ghost var b, e, m := base.Value(), exponent.Value(), modulus.Value();
    OneValue();
    var r0 := Mod(ONE, modulus);
    var r1 := Mod(base, modulus);
    ExponentFits(e, exponentBits);
    LadderStart(r0.Value(), r1.Value(), b, m);
    for i := exponentBits downto 0
      invariant r0.Value() < m && r1.Value() < m && Pow(2, i) > 0 && e / Pow(2, i) >= 0
      invariant LadderState(r0.Value(), r1.Value(), b, e / Pow(2, i), 1, m)
    {
      BitAtIsBit(exponent, i);
      ShiftStep(e, i + 1);
      r0, r1 := PlainLadderIteration(r0, r1, modulus, BitAt(exponent, i), b, e / Pow(2, i + 1));
    }
    assert Pow(2, 0) == 1 && e / 1 == e;
    CongMod(Pow(b, e), m);
    CongUnique(r0.Value(), Pow(b, e) % m, m);
    r := Ok(r0);
  }

  lemma ExponentFits(e: nat, bits: nat)
    requires NumBits(e) <= bits
    ensures Pow(2, bits) > 0 && e / Pow(2, bits) == 0 && e % Pow(2, bits) == e
  {
    NumBitsBounds(e);
    PowMonotone(2, NumBits(e), bits);
    ModSmall(e, Pow(2, bits));
  }

  lemma LadderStart(r0: int, r1: int, b: int, m: int)
    requires m > 0 && r0 == 1 % m && r1 == b % m
    ensures LadderState(r0, r1, b, 0, 1, m)
  {
    CongMod(1, m);
    CongMod(b, m);
    FirstBit(b, 0);
    assert Pow(b, 0) == 1;
  }

  method PlainLadderIteration(r0: Big, r1: Big, modulus: Big, bit: nat, ghost base: int, ghost k: nat)
    returns (s0: Big, s1: Big)
    requires bit <= 1 && modulus.Value() > 0
    requires LadderState(r0.Value(), r1.Value(), base, k, 1, modulus.Value())
    ensures s0.Value() < modulus.Value() && s1.Value() < modulus.Value()
    ensures LadderState(s0.Value(), s1.Value(), base, 2 * k + bit, 1, modulus.Value())
  {
    var product := MultiplyMod(r0, r1, modulus);
    var r0Squared := MultiplyMod(r0, r0, modulus);
    var r1Squared := MultiplyMod(r1, r1, modulus);
    LadderStep(r0.Value(), r1.Value(), base, k, 1, 1, modulus.Value(),
      product.Value(), r0Squared.Value(), r1Squared.Value());
    s0 := SelectResidue(bit, product, r0Squared, modulus);
    s1 := SelectResidue(bit, r1Squared, product, modulus);
  }

  // ----- the variable-width Montgomery ladder -----

  /** An odd modulus with the constant its Montgomery reduction uses. */
  ghost predicate MontgomeryModulus(modulus: Big, n0Inverse: Word) {
    && modulus.Value() % 2 == 1
    && |modulus.limbs| > 0
    && (modulus.limbs[0] * n0Inverse + 1) % BASE == 0
  }

  method MontgomeryProduct(lhs: Big, rhs: Big, modulus: Big, n0Inverse: Word) returns (r: Big)
    requires MontgomeryModulus(modulus, n0Inverse)
    ensures r.Value() < modulus.Value()
    ensures Cong(r.Value() * Pow(BASE, |modulus.limbs|), lhs.Value() * rhs.Value(), modulus.Value())
  {
    var width := |modulus.limbs|;
    ghost var n := modulus.Value();
    var l := Mod(lhs, modulus);
    var rr := Mod(rhs, modulus);
    var left := FixedLimbs(l.limbs, width);
    var right := FixedLimbs(rr.limbs, width);
    FixedResidue(l, modulus);
    FixedResidue(rr, modulus);
    var accumulator := new Word[2 * width + 2](_ => 0);
    LeZeros(accumulator[..], BASE);
    MultiplyInto(accumulator, left, right);
    ProductBelow(l.Value(), rr.Value(), n);
    ReduceInto(accumulator, modulus.limbs, n0Inverse);
    ghost var u := Val(accumulator[width..]);
    TopLimbIsZero(accumulator[width..], modulus.limbs);
    assert accumulator[width..][..width + 1] == accumulator[width..2 * width + 1];
    var result := Normalize(accumulator[width..2 * width + 1]);
    var order := Compare(result, modulus);
    CongMod(lhs.Value(), n);
    CongMod(rhs.Value(), n);
    CongMul(l.Value(), lhs.Value(), rr.Value(), rhs.Value(), n);
    if order >= 0 {
      result := Subtract(result, modulus);
      CongFrom(u - n, u, n, -1);
    }
    CongMul(result.Value(), u, Pow(BASE, width), Pow(BASE, width), n);
    r := result;
  }

  lemma FixedResidue(x: Big, modulus: Big)
    requires x.Value() < modulus.Value()
    ensures Val(FixedLimbs(x.limbs, |modulus.limbs|)) == x.Value()
  {
    FixedLimbsValue(x.limbs, |modulus.limbs|);
    ValBound(modulus.limbs);
    ModSmall(x.Value(), Pow(BASE, |modulus.limbs|));
  }

  lemma TopLimbIsZero(s: seq<Word>, modulus: seq<Word>)
    requires |s| == |modulus| + 2 && Val(s) < 2 * Val(modulus)
    ensures Val(s[..|modulus| + 1]) == Val(s)
  {
    var w := |modulus| + 1;
    LeTake(s, w, BASE);
    assert s[..w + 1] == s;
    ValBound(modulus);
    PowStep(BASE, |modulus|);
    PowPositive(BASE, w);
    LeBound(s[..w], BASE);
    MulCancelLess(s[w], 1, Pow(BASE, w));
  }

  method ModExpSecretMontgomery(base: Big, exponent: Big, modulus: Big, exponentBits: nat) returns (r: Result<Big>)
    ensures r.Ok? <==> modulus.Value() % 2 == 1 && NumBits(exponent.Value()) <= exponentBits
    ensures r.Ok? ==> r.value.Value() == Pow(base.Value(), exponent.Value()) % modulus.Value()
  {
    ZeroIff(modulus);
    if modulus.IsZero() {
      return Err(InvalidArgument);
    }
    var bits := BitLength(exponent);
    if bits > exponentBits {
      return Err(InvalidArgument);
    }
    ValParity(modulus.limbs);
    if modulus.limbs[0] % 2 == 0 {
      return Err(InvalidArgument);
    }
    var width := |modulus.limbs|;
    ghost var b, e, n, radix := base.Value(), exponent.Value(), modulus.Value(), Pow(BASE, width);
    var n0Inverse := LowInverse(modulus.limbs[0]);
    PowBase(width);
    ghost var inv := OddInverseOfPow2(n, 32 * width);
    var oneReduced, r0, r1 := EnterDomain(base, modulus, n0Inverse, inv);
    ExponentFits(e, exponentBits);
    for i := exponentBits downto 0
      invariant r0.Value() < n && r1.Value() < n && Pow(2, i) > 0 && e / Pow(2, i) >= 0
      invariant LadderState(r0.Value(), r1.Value(), b, e / Pow(2, i), radix, n)
    {
      BitAtIsBit(exponent, i);
      ShiftStep(e, i + 1);
      r0, r1 := DomainLadderIteration(r0, r1, modulus, n0Inverse, BitAt(exponent, i), b, e / Pow(2, i + 1), inv);
    }
    assert Pow(2, 0) == 1 && e / 1 == e;
    var result := MontgomeryProduct(r0, oneReduced, modulus, n0Inverse);
    LeaveDomain(result.Value(), r0.Value(), oneReduced.Value(), Pow(b, e), radix, inv, n);
    r := Ok(result);
  }

  /** `R mod N` by a shift, squared, gives the factor that carries one and the base into the domain. */
  method EnterDomain(base: Big, modulus: Big, n0Inverse: Word, ghost inv: int)
    returns (oneReduced: Big, r0: Big, r1: Big)
    requires MontgomeryModulus(modulus, n0Inverse)
    requires Cong(Pow(BASE, |modulus.limbs|) * inv, 1, modulus.Value())
    ensures oneReduced.Value() == 1 % modulus.Value()
    ensures r0.Value() < modulus.Value() && r1.Value() < modulus.Value()
    ensures LadderState(r0.Value(), r1.Value(), base.Value(), 0, Pow(BASE, |modulus.limbs|), modulus.Value())
  {
    ghost var n, radix, b := modulus.Value(), Pow(BASE, |modulus.limbs|), base.Value();
    OneValue();
    oneReduced := Mod(ONE, modulus);
    var baseReduced := Mod(base, modulus);
    var shifted := ShiftLeftBits(ONE, 32 * |modulus.limbs|);
    PowBase(|modulus.limbs|);
    var r := Mod(shifted, modulus);
    var rSquared := MultiplyMod(r, r, modulus);
    r0 := MontgomeryProduct(oneReduced, rSquared, modulus, n0Inverse);
    r1 := MontgomeryProduct(baseReduced, rSquared, modulus, n0Inverse);
    CongMod(radix, n);
    CongMul(r.Value(), radix, r.Value(), radix, n);
    CongMod(1, n);
    CongMod(b, n);
    DomainEntry(r0.Value(), oneReduced.Value(), rSquared.Value(), 1, radix, inv, n);
    DomainEntry(r1.Value(), baseReduced.Value(), rSquared.Value(), b, radix, inv, n);
    FirstBit(b, 0);
    assert Pow(b, 0) == 1;
  }

  lemma DomainEntry(x: int, v: int, rr: int, y: int, radix: int, inv: int, n: int)
    requires n > 0 && Cong(radix * inv, 1, n) && Cong(x * radix, v * rr, n)
    requires Cong(v, y, n) && Cong(rr, radix * radix, n)
    ensures Represents(x, y, radix, n)
  {
    CongMul(v, y, rr, radix * radix, n);
    assert y * (radix * radix) == (y * radix) * radix;
    CongCancelInverse(radix, inv, x, y * radix, n);
  }

  lemma LeaveDomain(x: int, r0: int, one: int, y: int, radix: int, inv: int, n: int)
    requires n > 0 && 0 <= x < n && Cong(radix * inv, 1, n)
    requires one == 1 % n && Cong(x * radix, r0 * one, n) && Represents(r0, y, radix, n)
    ensures x == y % n
  {
    CongMod(1, n);
    CongMul(r0, y * radix, one, 1, n);
    CongCancelInverse(radix, inv, x, y, n);
    CongMod(y, n);
    CongUnique(x, y % n, n);
  }

  method DomainLadderIteration(r0: Big, r1: Big, modulus: Big, n0Inverse: Word, bit: nat,
                               ghost base: int, ghost k: nat, ghost inv: int)
    returns (s0: Big, s1: Big)
    requires bit <= 1 && MontgomeryModulus(modulus, n0Inverse)
    requires Cong(Pow(BASE, |modulus.limbs|) * inv, 1, modulus.Value())
    requires LadderState(r0.Value(), r1.Value(), base, k, Pow(BASE, |modulus.limbs|), modulus.Value())
    ensures s0.Value() < modulus.Value() && s1.Value() < modulus.Value()
    ensures LadderState(s0.Value(), s1.Value(), base, 2 * k + bit, Pow(BASE, |modulus.limbs|), modulus.Value())
  {
    var product := MontgomeryProduct(r0, r1, modulus, n0Inverse);
    var r0Squared := MontgomeryProduct(r0, r0, modulus, n0Inverse);
    var r1Squared := MontgomeryProduct(r1, r1, modulus, n0Inverse);
    LadderStep(r0.Value(), r1.Value(), base, k, Pow(BASE, |modulus.limbs|), inv, modulus.Value(),
      product.Value(), r0Squared.Value(), r1Squared.Value());
    s0 := SelectResidue(bit, product, r0Squared, modulus);
    s1 := SelectResidue(bit, r1Squared, product, modulus);
  }
}
