/** 256-bit integers in eight limbs with bit-serial reduction, the lower half of `src/p256_fixed.cpp`. */
module P256Limbs {
  import opened NumberTheory
  import opened Digits
  import opened Words256
  import opened LimbLoops
  import opened MontgomeryLoops
  import BigInt
  import Montgomery

  const WIDE_LIMB_COUNT: nat := 16

  type U512 = s: seq<Word> | |s| == 16 witness [0, 0, 0, 0, 0, 0, 0, 0, 0, 0, 0, 0, 0, 0, 0, 0]

  const RADIX: int := Pow(BASE, 8)

  lemma U256Bound(x: U256)
    ensures Val(x) < RADIX
  {
    ValBound(x);
  }

  method IsZero(value: U256) returns (r: bool)
    ensures r <==> Val(value) == 0
  {
    ValIsZero(value);
    for i := 0 to |value|
      invariant forall k :: 0 <= k < i ==> value[k] == 0
    {
      if value[i] != 0 {
        return false;
      }
    }
    r := true;
  }

  method Compare(lhs: U256, rhs: U256) returns (r: int)
    ensures -1 <= r <= 1
    ensures r == -1 <==> Val(lhs) < Val(rhs)
    ensures r == 1 <==> Val(lhs) > Val(rhs)
  {
    for i := LIMB_COUNT downto 0
      invariant Val(lhs[i..]) == Val(rhs[i..])
    {
      if lhs[i] < rhs[i] {
        BigInt.TopLimbDecides(lhs, rhs, i);
        return -1;
      }
      if lhs[i] > rhs[i] {
        BigInt.TopLimbDecides(rhs, lhs, i);
        return 1;
      }
      LeHead(lhs, i, BASE);
      LeHead(rhs, i, BASE);
    }
    assert lhs[0..] == lhs && rhs[0..] == rhs;
    r := 0;
  }


  /** The difference modulo 2^256; `subtract_checked` is the same call. */
  method SubtractWrapped(lhs: U256, rhs: U256) returns (r: U256)
    ensures Val(r) == if Val(lhs) >= Val(rhs) then Val(lhs) - Val(rhs) else Val(lhs) - Val(rhs) + RADIX
  {
    var out, borrow := SubtractLimbs(lhs, rhs);
    r := out;
  }

  /** The exact 512-bit product. */
  method MultiplyWide(lhs: U256, rhs: U256) returns (r: U512)
    ensures Val(r) == Val(lhs) * Val(rhs)
  {
    var output := new Word[WIDE_LIMB_COUNT](_ => 0);
    LeZeros(output[..], BASE);
    MultiplyInto(output, lhs, rhs);
    r := output[..];
  }

  function BitAt(value: seq<Word>, bit: nat): (b: nat)
    requires bit < 32 * |value|
    ensures b == Bit(Val(value), bit)
  {
    BigInt.LimbBit(value, bit);
    Bit(value[bit / 32], bit % 32)
  }

  /** Shifts a bit in at the bottom, in place; the bit falling off the top comes back. */
  method ShiftLeftOneAdd(value: array<Word>, bit: nat) returns (carry: nat)
    requires value.Length == LIMB_COUNT && bit <= 1
    modifies value
    ensures carry <= 1
    ensures Val(value[..]) + carry * RADIX == 2 * old(Val(value[..])) + bit
  {
    ghost var before := value[..];
    carry := bit;
    for i := 0 to LIMB_COUNT
      invariant carry <= 1
      invariant value[i..] == before[i..]
      invariant Val(value[..i]) + carry * Pow(BASE, i) == 2 * Val(before[..i]) + bit
    {
      ghost var low, c := value[..i], carry;
      assert value[i] == value[i..][0] == before[i];
      var next := value[i] / 0x8000_0000;
      var shifted := (2 * value[i]) % BASE;
      OrLowBit(value[i], carry);
      var limb: Word := BitOr(shifted, carry);
      value[i] := limb;
      carry := next;
      assert value[..i + 1] == low + [limb];
      assert value[i + 1..] == before[i..][1..];
      assert before[i..][1..] == before[i + 1..];
      LeSnoc(low, limb, BASE);
      LeTake(before, i, BASE);
      ShiftedLimb(limb, next, before[i], c, Pow(BASE, i));
    }
    assert value[..8] == value[..] && before[..8] == before;
  }

  /** `(limb << 1) | carry` keeps the low word of 2 * limb + carry. */
  lemma OrLowBit(limb: Word, carry: nat)
    requires carry <= 1
    ensures BitOr((2 * limb) % BASE, carry) == (2 * limb) % BASE + carry
    ensures (2 * limb) % BASE + carry + (limb / 0x8000_0000) * BASE == 2 * limb + carry
    ensures (2 * limb) % BASE + carry < BASE
  {
    var s := (2 * limb) % BASE;
    assert s == 2 * (limb % 0x8000_0000);
    var h := limb % 0x8000_0000;
    assert Pow(2, 1) == 2 * Pow(2, 0);
    BitOrShifted(carry, h, 1);
    BitOrCommutes(carry, s);
  }

  lemma ShiftedLimb(d: int, next: int, limb: int, c: int, p: int)
    requires d + next * BASE == 2 * limb + c
    ensures d * p + next * (BASE * p) == 2 * (limb * p) + c * p
  {
    assert next * (BASE * p) == (next * BASE) * p;
    assert (2 * limb + c) * p == 2 * (limb * p) + c * p;
    assert d * p + (next * BASE) * p == (d + next * BASE) * p;
  }

  /** Bit-serial long division: the remainder stays below the modulus through all 512 bits, also
      when the shift overflows 256 bits. */
  method ReduceWide(value: U512, modulus: U256) returns (r: U256)
    requires Val(modulus) > 0
    ensures Val(r) == Val(value) % Val(modulus)
  {
    ghost var v, m := Val(value), Val(modulus);
    var remainder := new Word[LIMB_COUNT](_ => 0);
    LeZeros(remainder[..], BASE);
    ValBound(value);
    Montgomery.PowBase(WIDE_LIMB_COUNT);
    ModSmall(v, Pow(2, 32 * WIDE_LIMB_COUNT));
    ModSmall(0, m);
    for i := 32 * WIDE_LIMB_COUNT downto 0
      invariant Pow(2, i) > 0 && v / Pow(2, i) >= 0
      invariant Val(remainder[..]) == (v / Pow(2, i)) % m < m
    {
      ghost var q := v / Pow(2, i + 1);
      ShiftStep(v, i + 1);
      ReduceStep(remainder, BitAt(value, i), modulus);
      LongDivisionStep(q, Bit(v, i), m);
    }
    assert Pow(2, 0) == 1 && v / 1 == v;
    r := remainder[..];
  }

  lemma LongDivisionStep(q: int, bit: int, m: int)
    requires m > 0
    ensures (2 * (q % m) + bit) % m == (2 * q + bit) % m
  {
    CongMod(q, m);
    CongMul(2, 2, q % m, q, m);
    CongAdd(2 * (q % m), 2 * q, bit, bit, m);
  }

  /** One bit of the division. */
  method ReduceStep(remainder: array<Word>, bit: nat, modulus: U256)
    requires remainder.Length == LIMB_COUNT && bit <= 1 && Val(remainder[..]) < Val(modulus)
    modifies remainder
    ensures Val(remainder[..]) == (2 * old(Val(remainder[..])) + bit) % Val(modulus) < Val(modulus)
  {
    ghost var x, m := 2 * Val(remainder[..]) + bit, Val(modulus);
    U256Bound(modulus);
    U256Bound(remainder[..]);
    var carry := ShiftLeftOneAdd(remainder, bit);
    ghost var shifted := Val(remainder[..]);
    ValBound(remainder[..]);
    OneStep(x, shifted, carry, m, RADIX);
    if carry != 0 {
      var difference := SubtractWrapped(remainder[..], modulus);
      Store(remainder, difference);
    } else {
      var order := Compare(remainder[..], modulus);
      if order >= 0 {
        var difference := SubtractWrapped(remainder[..], modulus);
        Store(remainder, difference);
      }
    }
  }

  method Store(target: array<Word>, value: U256)
    requires target.Length == LIMB_COUNT
    modifies target
    ensures target[..] == value
  {
    for i := 0 to LIMB_COUNT
      invariant target[..i] == value[..i]
    {
      target[i] := value[i];
    }
    assert target[..8] == target[..] && value[..8] == value;
  }

  lemma OneStep(x: int, shifted: int, carry: int, m: int, radix: int)
    requires 0 < m < radix && 0 <= x < 2 * m && 0 <= shifted < radix && 0 <= carry <= 1
    requires shifted + carry * radix == x
    ensures carry == 1 ==> shifted < m && x % m == shifted - m + radix
    ensures carry == 0 && shifted >= m ==> x % m == shifted - m
    ensures carry == 0 && shifted < m ==> x % m == shifted
    ensures 0 <= x % m < m
  {
    if x < m {
      ModSmall(x, m);
    } else {
      ModAddMultiple(x, -1, m);
      ModSmall(x - m, m);
    }
  }

  // ----- modular operations -----

  method Reduce256(value: U256, modulus: U256) returns (r: U256)
    requires Val(modulus) > 0
    ensures Val(r) == Val(value) % Val(modulus)
  {
    var zeros := [0, 0, 0, 0, 0, 0, 0, 0];
    LeZeros(zeros, BASE);
    LeConcat(value, zeros, BASE);
    r := ReduceWide(value + zeros, modulus);
  }

  method ModAdd(lhs: U256, rhs: U256, modulus: U256) returns (r: U256)
    requires Val(modulus) > 0
    ensures Val(r) == (Val(lhs) + Val(rhs)) % Val(modulus)
  {
    var wide := AddWide(lhs, rhs);
    r := ReduceWide(wide, modulus);
  }

  /** The sum with its carry in the ninth limb. */
  method AddWide(lhs: U256, rhs: U256) returns (r: U512)
    ensures Val(r) == Val(lhs) + Val(rhs)
  {
    var wide := new Word[WIDE_LIMB_COUNT](_ => 0);
    var carry: Word := 0;
    for i := 0 to LIMB_COUNT
      invariant carry <= 1
      invariant forall k :: i <= k < WIDE_LIMB_COUNT ==> wide[k] == 0
      invariant Val(wide[..i]) + carry * Pow(BASE, i) == Val(lhs[..i]) + Val(rhs[..i])
    {
      ghost var before, c := wide[..i], carry;
      var sum := lhs[i] + rhs[i] + carry;
      wide[i] := sum % BASE;
      carry := sum / BASE;
      assert wide[..i + 1] == before + [wide[i]];
      LeSnoc(before, wide[i], BASE);
      LeTake(lhs, i, BASE);
      LeTake(rhs, i, BASE);
      BigInt.SumStep(wide[i], carry, lhs[i], rhs[i], c, Pow(BASE, i));
    }
    ghost var low := wide[..8];
    wide[8] := carry;
    ghost var rest := wide[9..];
    LeZeros(rest, BASE);
    assert wide[..] == low + [carry] + rest;
    LeSnoc(low, carry, BASE);
    LeConcat(low + [carry], rest, BASE);
    assert lhs[..8] == lhs && rhs[..8] == rhs;
    r := wide[..];
  }

  /** For reduced operands: the difference, taken from the modulus when it is negative. */
  method ModSubtract(lhs: U256, rhs: U256, modulus: U256) returns (r: U256)
    ensures Val(r) == if Val(lhs) >= Val(rhs) then Val(lhs) - Val(rhs) else (Val(lhs) - Val(rhs) + Val(modulus)) % RADIX
    ensures Val(lhs) < Val(modulus) && Val(rhs) < Val(modulus) ==> Val(r) == (Val(lhs) - Val(rhs)) % Val(modulus)
  {
    hide *;
    ghost var a: int, b: int, m: int := Val(lhs), Val(rhs), Val(modulus);
    U256Bound(modulus);
    ReducedDifference(a, b, m, RADIX);
    var order := Compare(lhs, rhs);
    if order >= 0 {
      r := SubtractWrapped(lhs, rhs);
      return;
    }
    var delta := SubtractWrapped(rhs, lhs);
    r := SubtractWrapped(modulus, delta);
    U256Bound(r);
    WrappedAt(a - b + m, Val(r), RADIX);
  }

  lemma ReducedDifference(a: int, b: int, m: int, radix: int)
    requires 0 <= a && 0 <= b && m < radix
    ensures a < m && b < m ==> (a - b) % m == if a >= b then a - b else (a - b + m) % radix
  {
    if a < m && b < m {
      if a >= b {
        ModSmall(a - b, m);
      } else {
        ModAddMultiple(a - b, 1, m);
        ModSmall(a - b + m, m);
        ModSmall(a - b + m, radix);
      }
    }
  }

  lemma WrappedAt(x: int, r: int, p: int)
    requires 0 <= r < p && (r == x || r == x + p)
    ensures r == x % p
  {
    ModAddMultiple(x, 1, p);
    ModSmall(r, p);
  }

  method ModMultiply(lhs: U256, rhs: U256, modulus: U256) returns (r: U256)
    requires Val(modulus) > 0
    ensures Val(r) == (Val(lhs) * Val(rhs)) % Val(modulus)
  {
    var wide := MultiplyWide(lhs, rhs);
    r := ReduceWide(wide, modulus);
  }

  const U256_ONE: U256 := [1, 0, 0, 0, 0, 0, 0, 0]

  lemma OneValue()
    ensures Val(U256_ONE) == 1
  {
    LeHead(U256_ONE, 0, BASE);
    assert U256_ONE[0..] == U256_ONE;
    LeZeros(U256_ONE[1..], BASE);
  }

  /** Left-to-right square and multiply over all 256 exponent bits. */
  method ModExp(base: U256, exponent: U256, modulus: U256) returns (r: U256)
    requires Val(modulus) > 0
    ensures Val(r) == Pow(Val(base), Val(exponent)) % Val(modulus)
  {
    ghost var b, e, m := Val(base), Val(exponent), Val(modulus);
    OneValue();
    r := Reduce256(U256_ONE, modulus);
    var reduced := Reduce256(base, modulus);
    ValBound(exponent);
    Montgomery.PowBase(LIMB_COUNT);
    ModSmall(e, Pow(2, 32 * LIMB_COUNT));
    CongMod(1, m);
    CongMod(b, m);
    assert Pow(b, 0) == 1;
    for i := 32 * LIMB_COUNT downto 0
      invariant Pow(2, i) > 0 && e / Pow(2, i) >= 0 && Val(r) < m
      invariant Cong(Val(r), Pow(b, e / Pow(2, i)), m)
    {
      ghost var x, k := Val(r), e / Pow(2, i + 1);
      ShiftStep(e, i + 1);
      r := ModMultiply(r, r, modulus);
      assert k >= 0;
      SquareStep(x, Val(r), b, k, m);
      if BitAt(exponent, i) == 1 {
        ghost var y := Val(r);
        r := ModMultiply(r, reduced, modulus);
        MultiplyStep(y, Val(r), Val(reduced), b, 2 * k, m);
      }
    }
    assert Pow(2, 0) == 1 && e / 1 == e;
    CongMod(Pow(b, e), m);
    CongUnique(Val(r), Pow(b, e) % m, m);
  }

  lemma SquareStep(x: int, y: int, b: int, k: nat, m: int)
    requires m > 0 && Cong(x, Pow(b, k), m) && y == (x * x) % m
    ensures Cong(y, Pow(b, 2 * k), m)
  {
    CongMul(x, Pow(b, k), x, Pow(b, k), m);
    CongMod(x * x, m);
    PowAdd(b, k, k);
  }

  lemma MultiplyStep(x: int, y: int, b': int, b: int, k: nat, m: int)
    requires m > 0 && Cong(x, Pow(b, k), m) && Cong(b', b, m) && y == (x * b') % m
    ensures Cong(y, Pow(b, k + 1), m)
  {
    CongMul(x, Pow(b, k), b', b, m);
    CongMod(x * b', m);
    PowStep(b, k);
  }
}
