/** Fixed-width integers for secret RSA exponents, `src/rsa_fixed_bigint.cpp`: limb arrays of a
    fixed width, selections made with masks, and exponentiation in the Montgomery domain. */
module RsaFixedBigInt {
  import opened NumberTheory
  import opened Digits
  import opened LimbLoops
  import opened ByteLoops
  import opened Montgomery
  import opened MontgomeryLoops
  import opened Masks
  import opened Results

  const MAX_LIMBS: nat := 64

  datatype FixedInt = FixedInt(limbs: seq<Word>) {
    function Width(): nat { |limbs| }

    function Value(): nat { Val(limbs) }

    /** The Montgomery radix that goes with the width. */
    function Radix(): (r: int)
      ensures r > 0
    {
      PowPositive(BASE, |limbs|);
      Pow(BASE, |limbs|)
    }
  }

  predicate ValidWidth(width: nat) {
    0 < width <= MAX_LIMBS
  }

  type Fixed = f: FixedInt | ValidWidth(|f.limbs|) witness FixedInt([0])

  lemma FixedBound(f: FixedInt)
    ensures f.Value() < f.Radix()
  {
    ValBound(f.limbs);
  }

  /** What Montgomery arithmetic asks of a modulus. */
  predicate IsMontgomeryModulus(n: int) {
    n > 1 && n % 2 == 1
  }

  lemma CompareStep(x: int, y: int, hx: int, hy: int)
    requires 0 <= x < BASE && 0 <= y < BASE
    ensures hx < hy ==> x + BASE * hx < y + BASE * hy
    ensures hx == hy ==> (x + BASE * hx < y + BASE * hy <==> x < y)
  {
  }

  // ----- construction and bytes -----

  /** Loads big-endian bytes; refused exactly when the number needs more than `width` limbs. */
  method FromBeBytes(input: seq<Byte>, width: nat) returns (r: Result<Fixed>)
    ensures r.Ok? <==> ValidWidth(width) && Be(input) < Pow(256, 4 * width)
    ensures r.Ok? ==> r.value.Width() == width && r.value.Value() == Be(input)
  {
    if !ValidWidth(width) {
      return Err(InvalidArgument);
    }
    var bytes, byteWidth := input, 4 * width;
    while |bytes| > byteWidth && bytes[0] == 0
      invariant Be(bytes) == Be(input)
      decreases |bytes|
    {
      assert bytes == [0] + bytes[1..];
      BeCons(0, bytes[1..]);
      bytes := bytes[1..];
    }
    if |bytes| > byteWidth {
      BeLeading(bytes);
      PowMonotone(256, byteWidth, |bytes| - 1);
      return Err(InvalidArgument);
    }
    BeBound(bytes);
    PowMonotone(256, |bytes|, byteWidth);
    var limbs := LoadLimbs(bytes, width);
    r := Ok(FixedInt(limbs));
  }

  /** `to_be_bytes` and `from_be_bytes` are inverse on numbers of one width. */
  method ToBeBytes(x: Fixed) returns (r: seq<Byte>)
    ensures |r| == 4 * x.Width() && Be(r) == x.Value()
  {
    r := StoreLimbs(x.limbs);
  }

  method IsZero(x: FixedInt) returns (r: bool)
    ensures r <==> x.Value() == 0
  {
    var diff: nat := 0;
    for i := 0 to |x.limbs|
      invariant diff == 0 <==> forall k :: 0 <= k < i ==> x.limbs[k] == 0
    {
      BitOrZero(diff, x.limbs[i]);
      diff := BitOr(diff, x.limbs[i]);
    }
    ValIsZero(x.limbs);
    r := diff == 0;
  }

  // ----- comparison, selection, subtraction -----

  method LessThanMask(lhs: Fixed, rhs: Fixed) returns (r: Result<bv8>)
    ensures r.Ok? <==> lhs.Width() == rhs.Width()
    ensures r.Ok? ==> r.value == if lhs.Value() < rhs.Value() then 0xFF else 0x00
  {
    if lhs.Width() != rhs.Width() {
      return Err(InvalidArgument);
    }
    var less: bv32, greater: bv32 := 0, 0;
    for i := lhs.Width() downto 0
      invariant less == 0 || less == 0xFFFF_FFFF
      invariant greater == 0 || greater == 0xFFFF_FFFF
      invariant less == 0xFFFF_FFFF <==> Val(lhs.limbs[i..]) < Val(rhs.limbs[i..])
      invariant greater == 0xFFFF_FFFF <==> Val(rhs.limbs[i..]) < Val(lhs.limbs[i..])
    {
      var left, right := lhs.limbs[i], rhs.limbs[i];
      ghost var hl, hr := Val(lhs.limbs[i + 1..]), Val(rhs.limbs[i + 1..]);
      assert lhs.limbs[i..][1..] == lhs.limbs[i + 1..] && rhs.limbs[i..][1..] == rhs.limbs[i + 1..];
      CompareStep(left, right, hl, hr);
      CompareStep(right, left, hr, hl);
      var undecided := !(less | greater);
      less := less | (undecided & WordLessThanMask(left, right));
      greater := greater | (undecided & WordLessThanMask(right, left));
    }
    assert lhs.limbs[0..] == lhs.limbs && rhs.limbs[0..] == rhs.limbs;
    r := Ok(ByteMaskFromWord(less));
  }

  method Select(mask: bv8, ifSet: Fixed, ifClear: Fixed) returns (r: Result<Fixed>)
    ensures r.Ok? <==> ifSet.Width() == ifClear.Width()
    ensures r.Ok? ==> r.value == if mask & 0x80 != 0 then ifSet else ifClear
  {
    if ifSet.Width() != ifClear.Width() {
      return Err(InvalidArgument);
    }
    var wordMask := WordMaskFromByte(mask);
    WordMaskCases(mask);
    ghost var chosen := if mask & 0x80 != 0 then ifSet else ifClear;
    var output := new Word[ifSet.Width()](_ => 0);
    for i := 0 to ifSet.Width()
      invariant output[..i] == chosen.limbs[..i]
    {
      MaskWordChooses(ifSet.limbs[i], ifClear.limbs[i]);
      output[i] := MaskWord(wordMask, ifSet.limbs[i], ifClear.limbs[i]);
    }
    assert output[..] == chosen.limbs;
    r := Ok(FixedInt(output[..]));
  }

  method Subtract(lhs: Fixed, rhs: Fixed) returns (r: Result<Fixed>)
    ensures r.Ok? <==> lhs.Width() == rhs.Width()
    ensures r.Ok? ==> r.value.Width() == lhs.Width()
    ensures r.Ok? ==> r.value.Value() == (lhs.Value() - rhs.Value()) % lhs.Radix()
  {
    if lhs.Width() != rhs.Width() {
      return Err(InvalidArgument);
    }
    var out, borrow := SubtractLimbs(lhs.limbs, rhs.limbs);
    ValBound(out);
    WrappedDifference(Val(out), lhs.Value() - rhs.Value(), borrow, lhs.Radix());
    r := Ok(FixedInt(out));
  }

  lemma WrappedDifference(v: int, d: int, borrow: int, radix: int)
    requires 0 <= v < radix && v == d + borrow * radix
    ensures d % radix == v
  {
    DivModUnique(d, radix, -borrow, v);
  }

  method RequireMontgomeryModulus(modulus: Fixed) returns (r: Result<()>)
    ensures r.Ok? <==> IsMontgomeryModulus(modulus.Value())
  {
    ValParity(modulus.limbs);
    var zero := IsZero(modulus);
    if zero || modulus.limbs[0] % 2 == 0 {
      return Err(InvalidArgument);
    }
    var remaining: nat := 0;
    for i := 1 to modulus.Width()
      invariant remaining == 0 <==> forall k :: 0 <= k < i - 1 ==> modulus.limbs[1..][k] == 0
    {
      BitOrZero(remaining, modulus.limbs[i]);
      remaining := BitOr(remaining, modulus.limbs[i]);
      assert modulus.limbs[1..][i - 1] == modulus.limbs[i];
    }
    ValIsZero(modulus.limbs[1..]);
    assert modulus.Value() == modulus.limbs[0] + BASE * Val(modulus.limbs[1..]);
    if modulus.limbs[0] == 1 && remaining == 0 {
      return Err(InvalidArgument);
    }
    r := Ok(());
  }

  method RequireReducedValue(value: Fixed, modulus: Fixed) returns (r: Result<()>)
    ensures r.Ok? <==> value.Width() == modulus.Width() && value.Value() < modulus.Value()
  {
    var less := LessThanMask(value, modulus);
    if less.Err? {
      return Err(less.error);
    }
    if less.value != 0xFF {
      return Err(InvalidArgument);
    }
    r := Ok(());
  }

  // ----- modular steps -----

  /** One masked subtraction reduces any total below 2N, also when it overflows the width. */
  method SubtractModulusIfNeeded(value: Fixed, modulus: Fixed, highLimb: Word) returns (r: Fixed)
    requires value.Width() == modulus.Width() && modulus.Value() > 0
    requires value.Value() + highLimb * modulus.Radix() < 2 * modulus.Value()
    ensures r.Width() == modulus.Width()
    ensures r.Value() == (value.Value() + highLimb * modulus.Radix()) % modulus.Value() < modulus.Value()
  {
    var difference := Subtract(value, modulus);
    var less := LessThanMask(value, modulus);
    NonZeroMaskSpec(highLimb);
    var highMask := ByteMaskFromWord(WordNonZeroMask(highLimb));
    var subtractMask := highMask | !less.value;
    var selected := Select(subtractMask, difference.value, value);
    r := selected.value;
    FixedBound(modulus);
    FixedBound(value);
    OneSubtraction(value.Value(), modulus.Value(), highLimb, modulus.Radix());
  }

  lemma OneSubtraction(v: int, n: int, high: int, radix: int)
    requires 0 < n < radix && 0 <= v < radix && 0 <= high && v + high * radix < 2 * n
    ensures high <= 1
    ensures high == 0 && v < n ==> (v + high * radix) % n == v
    ensures high != 0 || v >= n ==> (v + high * radix) % n == (v - n) % radix
    ensures 0 <= (v + high * radix) % n < n
  {
    MulCancelLess(high, 2, radix);
    if high == 0 && v < n {
      ModSmall(v, n);
    } else {
      var t := v + high * radix;
      ModAddMultiple(t, -1, n);
      ModSmall(t - n, n);
      ModAddMultiple(v - n, high, radix);
      ModSmall(t - n, radix);
    }
  }

  /** `scale * limbs + carry` for scale 1 or 2: the loop of `add_one_mod` and of `double_mod`. */
  method ScaleLimbs(limbs: seq<Word>, scale: nat, initial: nat) returns (out: seq<Word>, carry: Word)
    requires 1 <= scale <= 2 && initial <= 1
    ensures |out| == |limbs| && carry <= 1
    ensures Val(out) + carry * Pow(BASE, |limbs|) == scale * Val(limbs) + initial
  {
    var output := new Word[|limbs|](_ => 0);
    carry := initial;
    for i := 0 to |limbs|
      invariant carry <= 1
      invariant Val(output[..i]) + carry * Pow(BASE, i) == scale * Val(limbs[..i]) + initial
    {
      ghost var before, c := output[..i], carry;
      var sum := scale * limbs[i] + carry;
      output[i] := sum % BASE;
      carry := sum / BASE;
      assert output[..i + 1] == before + [output[i]];
      LeSnoc(before, output[i], BASE);
      LeTake(limbs, i, BASE);
      CarryStep(output[i], carry, limbs[i], scale, c, Pow(BASE, i));
    }
    assert limbs[..|limbs|] == limbs && output[..|limbs|] == output[..];
    out := output[..];
  }

  lemma CarryStep(d: int, c: int, limb: int, scale: int, c0: int, p: int)
    requires d == (scale * limb + c0) % BASE && c == (scale * limb + c0) / BASE
    ensures d * p + c * (BASE * p) == scale * (limb * p) + c0 * p
  {
    assert scale * limb + c0 == d + c * BASE;
    assert c * (BASE * p) == (c * BASE) * p;
    assert (scale * limb) * p == scale * (limb * p);
  }

  method AddOneMod(value: Fixed, modulus: Fixed) returns (r: Fixed)
    requires value.Width() == modulus.Width() && value.Value() < modulus.Value() && modulus.Value() > 1
    ensures r.Width() == modulus.Width()
    ensures r.Value() == (value.Value() + 1) % modulus.Value() < modulus.Value()
  {
    var out, carry := ScaleLimbs(value.limbs, 1, 1);
    r := SubtractModulusIfNeeded(FixedInt(out), modulus, carry);
  }

  method DoubleMod(value: Fixed, modulus: Fixed) returns (r: Fixed)
    requires value.Width() == modulus.Width() && value.Value() < modulus.Value()
    ensures r.Width() == modulus.Width()
    ensures r.Value() == (2 * value.Value()) % modulus.Value() < modulus.Value()
  {
    var out, carry := ScaleLimbs(value.limbs, 2, 0);
    r := SubtractModulusIfNeeded(FixedInt(out), modulus, carry);
  }

  /** Shifts one bit into a residue: doubles, then keeps the masked choice of adding one. */
  method AbsorbBit(value: Fixed, modulus: Fixed, bit: nat) returns (r: Fixed)
    requires value.Width() == modulus.Width() && value.Value() < modulus.Value() && modulus.Value() > 1
    requires bit <= 1
    ensures r.Width() == modulus.Width()
    ensures r.Value() == (2 * value.Value() + bit) % modulus.Value() < modulus.Value()
  {
    var doubled := DoubleMod(value, modulus);
    var incremented := AddOneMod(doubled, modulus);
    CongMod(2 * value.Value(), modulus.Value());
    CongAdd(doubled.Value(), 2 * value.Value(), 1, 1, modulus.Value());
    var selected := Select(BitMask(bit), incremented, doubled);
    r := selected.value;
  }

  method AbsorbByte(value: Fixed, modulus: Fixed, byte: Byte) returns (r: Fixed)
    requires value.Width() == modulus.Width() && value.Value() < modulus.Value() && modulus.Value() > 1
    ensures r.Width() == modulus.Width()
    ensures r.Value() == (value.Value() * 256 + byte) % modulus.Value() < modulus.Value()
  {
    ghost var n, v := modulus.Value(), value.Value();
    r := value;
    ModSmall(v, n);
    for bit := 8 downto 0
      invariant r.Width() == modulus.Width()
      invariant r.Value() == Horner(v, byte, bit) % n < n
    {
      r := AbsorbBit(r, modulus, Bit(byte, bit));
      ResidueStep(Horner(v, byte, bit + 1), 2, Bit(byte, bit), n);
    }
    HornerByte(v, byte, 0);
  }

  /** The bits of a byte from position 7 down to `bit`, shifted in behind v. */
  function Horner(v: nat, byte: Byte, bit: nat): nat
    decreases 8 - bit
  {
    if bit >= 8 then v else 2 * Horner(v, byte, bit + 1) + Bit(byte, bit)
  }

  lemma {:induction false} HornerByte(v: nat, byte: Byte, bit: nat)
    requires bit <= 8
    ensures Horner(v, byte, bit) == Shifted(v, byte, bit)
    ensures bit == 0 ==> Horner(v, byte, bit) == v * 256 + byte
    decreases 8 - bit
  {
    ShiftedEnds(v, byte);
    hide Shifted;
    if bit < 8 {
      HornerByte(v, byte, bit + 1);
      ShiftedStep(v, byte, bit);
    }
  }

  /** The same number in closed form. */
  function Shifted(v: nat, byte: Byte, bit: nat): int
    requires bit <= 8
  {
    PowPositive(2, bit);
    v * Pow(2, 8 - bit) + byte / Pow(2, bit)
  }

  lemma ShiftedEnds(v: nat, byte: Byte)
    ensures Shifted(v, byte, 8) == v && Shifted(v, byte, 0) == v * 256 + byte
  {
    assert Pow(2, 8) == 256 && Pow(2, 0) == 1;
    hide Pow;
    assert byte / Pow(2, 8) == 0;
  }

  lemma ShiftedStep(v: nat, byte: Byte, bit: nat)
    requires bit < 8
    ensures Shifted(v, byte, bit) == 2 * Shifted(v, byte, bit + 1) + Bit(byte, bit)
  {
    ShiftStep(byte, bit + 1);
    PowStep(2, 7 - bit);
    hide Pow;
    hide Bit;
    MulTwice(v, Pow(2, 7 - bit));
  }

  lemma ResidueStep(t: int, scale: int, d: int, n: int)
    requires n > 0
    ensures (scale * (t % n) + d) % n == (scale * t + d) % n
    ensures ((t % n) * scale + d) % n == (t * scale + d) % n
  {
    CongMod(t, n);
    CongMul(scale, scale, t % n, t, n);
    CongAdd(scale * (t % n), scale * t, d, d, n);
  }

  /** Horner's scheme over the bits: the big-endian input reduced modulo N, whatever its length. */
  method FromBeBytesMod(bytes: seq<Byte>, modulus: Fixed) returns (r: Result<Fixed>)
    ensures r.Ok? <==> IsMontgomeryModulus(modulus.Value())
    ensures r.Ok? ==> r.value.Width() == modulus.Width()
    ensures r.Ok? ==> r.value.Value() == Be(bytes) % modulus.Value() < modulus.Value()
  {
    var valid := RequireMontgomeryModulus(modulus);
    if valid.Err? {
      return Err(valid.error);
    }
    ghost var n := modulus.Value();
    var output := SmallFixed(0, modulus.Width());
    ModSmall(0, n);
    for k := 0 to |bytes|
      invariant output.Width() == modulus.Width()
      invariant output.Value() == Be(bytes[..k]) % n < n
    {
      output := AbsorbByte(output, modulus, bytes[k]);
      assert bytes[..k + 1] == bytes[..k] + [bytes[k]];
      BeSnoc(bytes[..k], bytes[k]);
      ResidueStep(Be(bytes[..k]), 256, bytes[k], n);
    }
    assert bytes[..|bytes|] == bytes;
    r := Ok(output);
  }

  /** A number of the given width whose lowest limb is `low` and whose other limbs are zero. */
  function SmallFixed(low: Word, width: nat): (r: Fixed)
    requires ValidWidth(width)
    ensures r.Width() == width && r.Value() == low
  {
    var limbs := [low] + seq(width - 1, _ => 0);
    assert limbs[1..] == seq(width - 1, _ => 0);
    LeZeros(limbs[1..], BASE);
    FixedInt(limbs)
  }

  // ----- Montgomery arithmetic -----

  /** Five Newton steps give the negated inverse of the lowest limb modulo 2^32. */
  method MontgomeryN0Inverse(modulus: Fixed) returns (r: Result<Word>)
    ensures r.Ok? <==> IsMontgomeryModulus(modulus.Value())
    ensures r.Ok? ==> (modulus.limbs[0] * r.value + 1) % BASE == 0
  {
    var valid := RequireMontgomeryModulus(modulus);
    if valid.Err? {
      return Err(valid.error);
    }
    ValParity(modulus.limbs);
    var w := LowInverse(modulus.limbs[0]);
    r := Ok(w);
  }

  ghost predicate MontgomeryOperands(lhs: Fixed, rhs: Fixed, modulus: Fixed) {
    && lhs.Width() == rhs.Width() == modulus.Width()
    && IsMontgomeryModulus(modulus.Value())
    && lhs.Value() < modulus.Value()
    && rhs.Value() < modulus.Value()
  }

  /** `lhs * rhs * R^-1 mod N`, fully reduced. */
  method MontgomeryMultiply(lhs: Fixed, rhs: Fixed, modulus: Fixed) returns (r: Result<Fixed>)
    ensures r.Ok? <==> MontgomeryOperands(lhs, rhs, modulus)
    ensures r.Ok? ==> r.value.Width() == modulus.Width() && r.value.Value() < modulus.Value()
    ensures r.Ok? ==> Cong(r.value.Value() * modulus.Radix(), lhs.Value() * rhs.Value(), modulus.Value())
  {
    if lhs.Width() != rhs.Width() || lhs.Width() != modulus.Width() {
      return Err(InvalidArgument);
    }
    var valid := RequireMontgomeryModulus(modulus);
    if valid.Err? {
      return Err(valid.error);
    }
    var lhsReduced := RequireReducedValue(lhs, modulus);
    if lhsReduced.Err? {
      return Err(lhsReduced.error);
    }
    var rhsReduced := RequireReducedValue(rhs, modulus);
    if rhsReduced.Err? {
      return Err(rhsReduced.error);
    }
    var inverse := MontgomeryN0Inverse(modulus);
    var accumulator := new Word[2 * modulus.Width() + 2](_ => 0);
    LeZeros(accumulator[..], BASE);
    MultiplyInto(accumulator, lhs.limbs, rhs.limbs);
    ProductBelow(lhs.Value(), rhs.Value(), modulus.Value());
    var x := ReduceProduct(accumulator, modulus, inverse.value);
    r := Ok(x);
  }

  /** The reduction of an accumulated product below N^2, with its single masked subtraction. */
  method ReduceProduct(accumulator: array<Word>, modulus: Fixed, n0Inverse: Word) returns (r: Fixed)
    requires accumulator.Length == 2 * modulus.Width() + 2 && (modulus.limbs[0] * n0Inverse + 1) % BASE == 0
    requires 0 < modulus.Value() && Val(accumulator[..]) < modulus.Value() * modulus.Value()
    modifies accumulator
    ensures r.Width() == modulus.Width() && r.Value() < modulus.Value()
    ensures Cong(r.Value() * modulus.Radix(), old(Val(accumulator[..])), modulus.Value())
  {
    var width := modulus.Width();
    ReduceInto(accumulator, modulus.limbs, n0Inverse);
    UpperHalf(accumulator[width..], modulus.limbs);
    assert accumulator[width..][..width] == accumulator[width..2 * width];
    var reduced: Fixed := FixedInt(accumulator[width..2 * width]);
    var highLimb := BitOr(accumulator[2 * width], accumulator[2 * width + 1]);
    r := SubtractModulusIfNeeded(reduced, modulus, highLimb);
    ghost var u, n := Val(accumulator[width..]), modulus.Value();
    CongMod(u, n);
    CongMul(r.Value(), u, modulus.Radix(), modulus.Radix(), n);
  }

  lemma TwoLimbs(s: seq<Word>)
    requires |s| == 2
    ensures Val(s) == s[0] + BASE * s[1]
  {
    assert Le(s, BASE) == s[0] + BASE * Le(s[1..], BASE);
    assert Le(s[1..], BASE) == s[1] + BASE * Le(s[1..][1..], BASE);
  }

  /** Above the low `width` limbs of a number below 2N only a zero or one can remain. */
  lemma UpperHalf(s: seq<Word>, modulus: seq<Word>)
    requires |s| == |modulus| + 2 && Val(s) < 2 * Val(modulus)
    ensures BitOr(s[|modulus|], s[|modulus| + 1]) <= 1
    ensures Val(s[..|modulus|]) + BitOr(s[|modulus|], s[|modulus| + 1]) * Pow(BASE, |modulus|) == Val(s)
  {
    var w := |modulus|;
    var p, h := Pow(BASE, w), s[w] + BASE * s[w + 1];
    LeSplit(s, w, BASE);
    TwoLimbs(s[w..]);
    ValBound(modulus);
    PowPositive(BASE, w);
    assert p * h == h * p;
    MulCancelLess(h, 2, p);
  }

  method ToMontgomery(value: Fixed, modulus: Fixed) returns (r: Result<Fixed>)
    ensures r.Ok? <==> MontgomeryOperands(value, value, modulus)
    ensures r.Ok? ==> r.value.Width() == modulus.Width() && r.value.Value() < modulus.Value()
    ensures r.Ok? ==> Represents(r.value.Value(), value.Value(), modulus.Radix(), modulus.Value())
  {
    if value.Width() != modulus.Width() {
      return Err(InvalidArgument);
    }
    var valid := RequireMontgomeryModulus(modulus);
    if valid.Err? {
      return Err(valid.error);
    }
    var reduced := RequireReducedValue(value, modulus);
    if reduced.Err? {
      return Err(reduced.error);
    }
    var output := value;
    ghost var v, n := value.Value(), modulus.Value();
    for i := 0 to 32 * value.Width()
      invariant output.Width() == modulus.Width() && output.Value() < n
      invariant Cong(output.Value(), v * Pow(2, i), n)
    {
      ghost var x := output.Value();
      output := DoubleMod(output, modulus);
      DoublingStep(output.Value(), x, v, Pow(2, i), n);
    }
    PowBase(value.Width());
    r := Ok(output);
  }

  lemma DoublingStep(doubled: int, x: int, v: int, p: int, n: int)
    requires n > 0 && doubled == 2 * x % n && Cong(x, v * p, n)
    ensures Cong(doubled, v * (2 * p), n)
  {
    CongMod(2 * x, n);
    CongMul(2, 2, x, v * p, n);
    assert 2 * (v * p) == v * (2 * p);
  }

  method FromMontgomery(value: Fixed, modulus: Fixed) returns (r: Result<Fixed>)
    ensures r.Ok? <==> MontgomeryOperands(value, value, modulus)
    ensures r.Ok? ==> r.value.Width() == modulus.Width() && r.value.Value() < modulus.Value()
    ensures r.Ok? ==> Represents(value.Value(), r.value.Value(), modulus.Radix(), modulus.Value())
  {
    if value.Width() != modulus.Width() {
      return Err(InvalidArgument);
    }
    r := MontgomeryMultiply(value, SmallFixed(1, value.Width()), modulus);
  }

  // ----- the exponentiation ladder -----

  /** Bit `i` of a big-endian exponent, zero beyond its end. */
  function ExponentBit(exponent: seq<Byte>, i: nat): (b: nat)
    ensures b <= 1
  {
    var fromEnd := i / 8;
    if fromEnd >= |exponent| then 0 else Bit(exponent[|exponent| - fromEnd - 1], i % 8)
  }

  lemma {:induction false} ExponentBitIsBit(exponent: seq<Byte>, i: nat)
    ensures ExponentBit(exponent, i) == Bit(Be(exponent), i)
    decreases |exponent|
  {
    PowPositive(2, i);
    if |exponent| == 0 {
      ModSmall(0, Pow(2, i));
    } else {
      var rest, last := exponent[..|exponent| - 1], exponent[|exponent| - 1];
      if i < 8 {
        BitOfLowByte(Be(rest), last, i);
      } else {
        ExponentBitIsBit(rest, i - 8);
        BitOfHighBytes(Be(rest), last, i);
        assert (i - 8) / 8 == i / 8 - 1 && (i - 8) % 8 == i % 8;
      }
    }
  }

  /** The masked two-register ladder: base^e mod N for e the low `exponentBits` bits of the exponent. */
  method MontgomeryModExpSecret(base: Fixed, exponent: seq<Byte>, modulus: Fixed, exponentBits: nat)
    returns (r: Result<Fixed>)
    ensures r.Ok? <==> MontgomeryOperands(base, base, modulus)
    ensures r.Ok? ==> r.value.Width() == modulus.Width() && Pow(2, exponentBits) > 0
    ensures r.Ok? ==> r.value.Value() < modulus.Value()
    ensures r.Ok? ==> r.value.Value() == Pow(base.Value(), Be(exponent) % Pow(2, exponentBits)) % modulus.Value()
  {
    if base.Width() != modulus.Width() {
      return Err(InvalidArgument);
    }
    var valid := RequireMontgomeryModulus(modulus);
    if valid.Err? {
      return Err(valid.error);
    }
    var reduced := RequireReducedValue(base, modulus);
    if reduced.Err? {
      return Err(reduced.error);
    }
    ghost var n, radix, b := modulus.Value(), modulus.Radix(), base.Value();
    PowPositive(2, exponentBits);
    ghost var e := Be(exponent) % Pow(2, exponentBits);
    PowBase(modulus.Width());
    ghost var inv := OddInverseOfPow2(n, 32 * modulus.Width());
    var one := ToMontgomery(SmallFixed(1, base.Width()), modulus);
    var first := ToMontgomery(base, modulus);
    var r0, r1 := one.value, first.value;
    ModSmall(e, Pow(2, exponentBits));
    for i := exponentBits downto 0
      invariant MontgomeryOperands(r0, r1, modulus)
      invariant Pow(2, i) > 0 && e / Pow(2, i) >= 0
      invariant LadderState(r0.Value(), r1.Value(), b, e / Pow(2, i), radix, n)
    {
      ExponentBitIsBit(exponent, i);
      BitOfTruncated(Be(exponent), exponentBits, i);
      ShiftStep(e, i + 1);
      r0, r1 := LadderIteration(r0, r1, modulus, ExponentBit(exponent, i), b, e / Pow(2, i + 1), inv);
    }
    r := FromMontgomery(r0, modulus);
    CongCancelInverse(radix, inv, r.value.Value(), Pow(b, e), n);
    ModSmall(r.value.Value(), n);
  }

  method LadderIteration(r0: Fixed, r1: Fixed, modulus: Fixed, bit: nat, ghost base: int, ghost k: nat, ghost inv: int)
    returns (s0: Fixed, s1: Fixed)
    requires bit <= 1 && MontgomeryOperands(r0, r1, modulus) && Cong(modulus.Radix() * inv, 1, modulus.Value())
    requires LadderState(r0.Value(), r1.Value(), base, k, modulus.Radix(), modulus.Value())
    ensures MontgomeryOperands(s0, s1, modulus)
    ensures LadderState(s0.Value(), s1.Value(), base, 2 * k + bit, modulus.Radix(), modulus.Value())
  {
    var product := MontgomeryMultiply(r0, r1, modulus);
    var r0Squared := MontgomeryMultiply(r0, r0, modulus);
    var r1Squared := MontgomeryMultiply(r1, r1, modulus);
    LadderStep(r0.Value(), r1.Value(), base, k, modulus.Radix(), inv, modulus.Value(),
      product.value.Value(), r0Squared.value.Value(), r1Squared.value.Value());
    var mask := BitMask(bit);
    var selectedR0 := Select(mask, product.value, r0Squared.value);
    var selectedR1 := Select(mask, r1Squared.value, product.value);
    s0, s1 := selectedR0.value, selectedR1.value;
  }
}
