/** Arbitrary-length non-negative integers, `src/bigint.cpp`. */
module BigInt {
  import opened NumberTheory
  import opened Digits
  import opened LimbLoops
  import opened ByteLoops
  import opened MontgomeryLoops
  import opened Results
  import Montgomery

  /** No leading (most significant) zero limb. */
  predicate Normalized(limbs: seq<Word>) {
    |limbs| > 0 ==> limbs[|limbs| - 1] != 0
  }

  datatype Number = Number(limbs: seq<Word>) {
    function Value(): nat { Val(limbs) }

    predicate IsZero() { |limbs| == 0 }
  }

  type Big = n: Number | Normalized(n.limbs) witness Number([])

  const ZERO: Big := Number([])
  const ONE: Big := Number([1])

  lemma OneValue()
    ensures ONE.Value() == 1
  {
    assert Le([1], BASE) == 1 + BASE * Le([1][1..], BASE);
  }

  /** A normalized number's top limb gives its magnitude. */
  lemma NormalizedBounds(x: Big)
    requires |x.limbs| > 0
    ensures x.Value() >= Pow(BASE, |x.limbs| - 1) > 0
  {
    var n := |x.limbs| - 1;
    LeSplit(x.limbs, n, BASE);
    LeHead(x.limbs, n, BASE);
    assert x.limbs[n + 1..] == [];
    LeBound(x.limbs[..n], BASE);
    PowPositive(BASE, n);
    MulBound(1, x.limbs[n], Pow(BASE, n), Pow(BASE, n));
  }

  lemma ZeroIff(x: Big)
    ensures x.IsZero() <==> x.Value() == 0
  {
    if |x.limbs| > 0 {
      NormalizedBounds(x);
    }
  }

  /** A normalized number has no more limbs than its size needs. */
  lemma LimbCount(x: Big, width: nat)
    requires x.Value() < Pow(BASE, width)
    ensures |x.limbs| <= width
  {
    if |x.limbs| > width {
      NormalizedBounds(x);
      PowMonotone(BASE, width, |x.limbs| - 1);
    }
  }

  lemma BigUnique(x: Big, y: Big)
    requires x.Value() == y.Value()
    ensures x == y
  {
    ValBound(x.limbs);
    ValBound(y.limbs);
    LimbCount(x, |y.limbs|);
    LimbCount(y, |x.limbs|);
    LeInjective(x.limbs, y.limbs, BASE);
  }

  // ----- construction and bytes -----

  /** Pops zero limbs off the top. */
  method Normalize(input: seq<Word>) returns (r: Big)
    ensures r.Value() == Val(input)
  {
    var limbs := input;
    while |limbs| > 0 && limbs[|limbs| - 1] == 0
      invariant Val(limbs) == Val(input)
      decreases |limbs|
    {
      DropTopZero(limbs);
      limbs := limbs[..|limbs| - 1];
    }
    r := Number(limbs);
  }

  lemma DropTopZero(limbs: seq<Word>)
    requires |limbs| > 0 && limbs[|limbs| - 1] == 0
    ensures Val(limbs[..|limbs| - 1]) == Val(limbs)
  {
    LeTake(limbs, |limbs| - 1, BASE);
    assert limbs[..|limbs|] == limbs;
  }

  method FromBeBytes(input: seq<Byte>) returns (r: Big)
    ensures r.Value() == Be(input)
  {
    var bytes := input;
    while |bytes| > 0 && bytes[0] == 0
      invariant Be(bytes) == Be(input)
      decreases |bytes|
    {
      assert bytes == [0] + bytes[1..];
      BeCons(0, bytes[1..]);
      bytes := bytes[1..];
    }
    if |bytes| == 0 {
      return ZERO;
    }
    var limbs := LoadLimbs(bytes, (|bytes| + 3) / 4);
    r := Normalize(limbs);
  }

  /** The shortest big-endian form: no leading zero byte, and one zero byte for zero. */
  ghost predicate IsMinimalBe(bytes: seq<Byte>, n: nat) {
    && Be(bytes) == n
    && |bytes| > 0
    && (n == 0 ==> bytes == [0])
    && (n != 0 ==> bytes[0] != 0)
  }

  lemma MinimalBeUnique(s: seq<Byte>, t: seq<Byte>, n: nat)
    requires IsMinimalBe(s, n) && IsMinimalBe(t, n)
    ensures s == t
  {
    if n != 0 {
      StripZerosUnique(s, t);
    }
  }

  /** A minimal encoding fits every width the number fits. */
  lemma MinimalBeLength(s: seq<Byte>, n: nat, width: nat)
    requires IsMinimalBe(s, n) && n < Pow(256, width) && width > 0
    ensures |s| <= width
  {
    if n != 0 && |s| > width {
      BeLeading(s);
      PowMonotone(256, width, |s| - 1);
    }
  }

  method ToBeBytes(x: Big) returns (r: seq<Byte>)
    ensures IsMinimalBe(r, x.Value())
  {
    ZeroIff(x);
    if x.IsZero() {
      BeOne(0);
      return [0];
    }
    r := MinimalBytes(x.limbs);
    assert |r| == 0 ==> Be(r) == 0;
  }

  /** Emits the bytes of the limbs from the top, skipping leading zero bytes. */
  method MinimalBytes(limbs: seq<Word>) returns (r: seq<Byte>)
    ensures Be(r) == Val(limbs) && (|r| > 0 ==> r[0] != 0)
  {
    r := [];
    for reverseIndex := |limbs| downto 0
      invariant Be(r) == Val(limbs[reverseIndex..]) && (|r| > 0 ==> r[0] != 0)
    {
      r := AppendLimb(r, limbs[reverseIndex]);
      LeHead(limbs, reverseIndex, BASE);
    }
    assert limbs[0..] == limbs;
  }

  method AppendLimb(prefix: seq<Byte>, limb: Word) returns (r: seq<Byte>)
    requires |prefix| > 0 ==> prefix[0] != 0
    ensures Be(r) == Be(prefix) * BASE + limb && (|r| > 0 ==> r[0] != 0)
  {
    hide Be;
    ghost var v := Be(prefix);
    var bytes := LimbBytes(limb);
    r := prefix;
    EmptyBe();
    assert bytes[..0] == [] && Pow(256, 0) == 1;
    for i := 0 to 4
      invariant Be(r) == v * Pow(256, i) + Be(bytes[..i]) && (|r| > 0 ==> r[0] != 0)
    {
      assert bytes[..i + 1] == bytes[..i] + [bytes[i]];
      BeSnoc(bytes[..i], bytes[i]);
      BeSnoc(r, bytes[i]);
      ShiftByte(v, Pow(256, i), Be(bytes[..i]), bytes[i]);
      if |r| > 0 || bytes[i] != 0 {
        r := r + [bytes[i]];
      } else {
        EmptyBe();
      }
    }
    assert bytes[..4] == bytes && Pow(256, 4) == BASE;
  }

  lemma EmptyBe()
    ensures Be([]) == 0
  {
  }

  lemma ShiftByte(v: int, p: int, b: int, x: int)
    ensures (v * p + b) * 256 + x == v * (256 * p) + (b * 256 + x)
  {
  }

  // ----- comparison and bits -----

  method CompareLimbs(left: seq<Word>, right: seq<Word>) returns (r: int)
    ensures -1 <= r <= 1
    ensures r == -1 <==> Val(left) < Val(right)
    ensures r == 1 <==> Val(left) > Val(right)
  {
    var lhs, rhs := left, right;
    while |lhs| > 0 && lhs[|lhs| - 1] == 0
      invariant Val(lhs) == Val(left)
      decreases |lhs|
    {
      DropTopZero(lhs);
      lhs := lhs[..|lhs| - 1];
    }
    while |rhs| > 0 && rhs[|rhs| - 1] == 0
      invariant Val(rhs) == Val(right)
      decreases |rhs|
    {
      DropTopZero(rhs);
      rhs := rhs[..|rhs| - 1];
    }
    if |lhs| < |rhs| {
      ShorterIsLess(Number(lhs), Number(rhs));
      return -1;
    }
    if |lhs| > |rhs| {
      ShorterIsLess(Number(rhs), Number(lhs));
      return 1;
    }
    for i := |lhs| downto 0
      invariant Val(lhs[i..]) == Val(rhs[i..])
    {
      if lhs[i] < rhs[i] {
        TopLimbDecides(lhs, rhs, i);
        return -1;
      }
      if lhs[i] > rhs[i] {
        TopLimbDecides(rhs, lhs, i);
        return 1;
      }
      LeHead(lhs, i, BASE);
      LeHead(rhs, i, BASE);
    }
    assert lhs[0..] == lhs && rhs[0..] == rhs;
    r := 0;
  }

  lemma ShorterIsLess(x: Big, y: Big)
    requires |x.limbs| < |y.limbs|
    ensures x.Value() < y.Value()
  {
    ValBound(x.limbs);
    NormalizedBounds(y);
    PowMonotone(BASE, |x.limbs|, |y.limbs| - 1);
  }

  lemma TopLimbDecides(s: seq<Word>, t: seq<Word>, i: nat)
    requires |s| == |t| && i < |s| && s[i] < t[i] && Val(s[i + 1..]) == Val(t[i + 1..])
    ensures Val(s) < Val(t)
  {
    LeSplit(s, i, BASE);
    LeSplit(t, i, BASE);
    LeHead(s, i, BASE);
    LeHead(t, i, BASE);
    LeBound(s[..i], BASE);
    LeBound(t[..i], BASE);
    HighPartDecides(Val(s[..i]), Val(t[..i]), Pow(BASE, i), Val(s[i..]), Val(t[i..]));
  }

  lemma HighPartDecides(low: int, low': int, p: int, x: int, y: int)
    requires 0 <= low < p && 0 <= low' && x < y
    ensures low + p * x < low' + p * y
  {
    MulBound(p, p, 1, y - x);
    assert p * (y - x) == p * y - p * x;
  }

  method Compare(lhs: Big, rhs: Big) returns (r: int)
    ensures -1 <= r <= 1
    ensures r == -1 <==> lhs.Value() < rhs.Value()
    ensures r == 1 <==> lhs.Value() > rhs.Value()
  {
    r := CompareLimbs(lhs.limbs, rhs.limbs);
  }

  /** Bit `index`, read out of its limb. */
  function BitAt(x: Big, index: nat): (b: nat)
    ensures b <= 1
  {
    if index / 32 >= |x.limbs| then 0 else Bit(x.limbs[index / 32], index % 32)
  }

  lemma BitAtIsBit(x: Big, index: nat)
    ensures BitAt(x, index) == Bit(x.Value(), index)
  {
    LimbBit(x.limbs, index);
  }

  /** Reading one bit of a limb reads that bit of the number. */
  lemma {:induction false} LimbBit(s: seq<Word>, index: nat)
    ensures (if index / 32 >= |s| then 0 else Bit(s[index / 32], index % 32)) == Bit(Val(s), index)
    decreases |s|
  {
    if |s| == 0 {
      PowPositive(2, index);
      ModSmall(0, Pow(2, index));
    } else {
      LeHead(s, 0, BASE);
      assert s[0..] == s;
      if index < 32 {
        BitOfLowLimb(Val(s[1..]), s[0], index);
      } else {
        LimbBit(s[1..], index - 32);
        BitOfHighLimbs(Val(s[1..]), s[0], index);
        assert (index - 32) / 32 == index / 32 - 1 && (index - 32) % 32 == index % 32;
      }
    }
  }

  lemma BitOfLowLimb(high: nat, low: Word, i: nat)
    requires i < 32
    ensures Bit(low + BASE * high, i) == Bit(low, i)
  {
    PowPositive(2, i);
    PowAdd(2, i, 32 - i);
    PowStep(2, 31 - i);
    Montgomery.Pow32();
    hide Pow;
    var p, k := Pow(2, i), high * Pow(2, 31 - i);
    HighMultiple(high, p, Pow(2, 31 - i));
    ModAddMultiple(low, 2 * k, p);
    ModAddMultiple(low / p, k, 2);
  }

  lemma HighMultiple(high: int, p: int, q: int)
    ensures (p * (2 * q)) * high == (2 * (high * q)) * p
  {
  }

  lemma BitOfHighLimbs(high: nat, low: Word, i: nat)
    requires i >= 32
    ensures Bit(low + BASE * high, i) == Bit(high, i - 32)
  {
    PowPositive(2, i - 32);
    PowAdd(2, 32, i - 32);
    Montgomery.Pow32();
    hide Pow;
    DivModUnique(low + BASE * high, BASE, high, low);
    DivDiv(low + BASE * high, BASE, Pow(2, i - 32));
  }

  method BitLength(x: Big) returns (bits: nat)
    ensures bits == NumBits(x.Value())
  {
    ZeroIff(x);
    if |x.limbs| == 0 {
      return 0;
    }
    var high := x.limbs[|x.limbs| - 1];
    bits := 32 * (|x.limbs| - 1);
    Montgomery.Pow32();
    for bitIndex := 32 downto 0
      invariant high < Pow(2, bitIndex)
    {
      TopBit(high, bitIndex);
      if Bit(high, bitIndex) != 0 {
        BitLengthOf(x, bitIndex);
        bits := bits + bitIndex + 1;
        return;
      }
    }
    assert false;
  }

  lemma TopBit(h: nat, i: nat)
    requires h < Pow(2, i + 1)
    ensures Bit(h, i) == 1 <==> h >= Pow(2, i)
  {
    PowPositive(2, i);
    if h < Pow(2, i) {
      ModSmall(h, Pow(2, i));
    } else {
      DivModUnique(h, Pow(2, i), 1, h - Pow(2, i));
    }
  }

  lemma BitLengthOf(x: Big, i: nat)
    requires |x.limbs| > 0 && Pow(2, i) <= x.limbs[|x.limbs| - 1] < Pow(2, i + 1)
    ensures NumBits(x.Value()) == 32 * (|x.limbs| - 1) + i + 1
  {
    var n := |x.limbs| - 1;
    var high, p := x.limbs[n], Pow(BASE, n);
    LeSplit(x.limbs, n, BASE);
    LeHead(x.limbs, n, BASE);
    assert x.limbs[n + 1..] == [];
    LeBound(x.limbs[..n], BASE);
    Montgomery.PowBase(n);
    PowAdd(2, 32 * n, i);
    PowAdd(2, 32 * n, i + 1);
    TopLimbRange(x.Value(), Val(x.limbs[..n]), p, high, Pow(2, i), Pow(2, i + 1));
    NumBitsIs(x.Value(), 32 * n + i + 1);
  }

  lemma TopLimbRange(v: int, low: int, p: int, high: int, a: int, b: int)
    requires v == low + p * high && 0 <= low < p && 0 <= a <= high < b
    ensures p * a <= v < p * b
  {
    MulBound(a, high, p, p);
    MulBound(high, b - 1, p, p);
    assert (b - 1) * p == b * p - p;
  }

  // ----- addition, subtraction, multiplication, shifting -----

  method Add(lhs: Big, rhs: Big) returns (r: Big)
    ensures r.Value() == lhs.Value() + rhs.Value()
  {
    var size := (if |lhs.limbs| > |rhs.limbs| then |lhs.limbs| else |rhs.limbs|) + 1;
    var output := new Word[size](_ => 0);
    var carry: Word := 0;
    for i := 0 to size
      invariant carry <= 1
      invariant Val(output[..i]) + carry * Pow(BASE, i) == Val(Low(lhs.limbs, i)) + Val(Low(rhs.limbs, i))
    {
      var left: Word := if i < |lhs.limbs| then lhs.limbs[i] else 0;
      var right: Word := if i < |rhs.limbs| then rhs.limbs[i] else 0;
      ghost var before, c := output[..i], carry;
      var sum := left + right + carry;
      output[i] := sum % BASE;
      carry := sum / BASE;
      assert output[..i + 1] == before + [output[i]];
      AddStep(before, output[i], c, carry, lhs.limbs, rhs.limbs);
    }
    assert output[..size] == output[..];
    NoCarryOut(lhs.limbs, rhs.limbs, output[..], carry);
    r := Normalize(output[..]);
  }

  lemma AddStep(before: seq<Word>, d: Word, c: Word, c': Word, s: seq<Word>, t: seq<Word>)
    requires var i := |before|;
             var sum := (if i < |s| then s[i] else 0) + (if i < |t| then t[i] else 0) + c;
             d == sum % BASE && c' == sum / BASE
    requires Val(before) + c * Pow(BASE, |before|) == Val(Low(s, |before|)) + Val(Low(t, |before|))
    ensures Val(before + [d]) + c' * Pow(BASE, |before| + 1)
         == Val(Low(s, |before| + 1)) + Val(Low(t, |before| + 1))
  {
    var i := |before|;
    LeSnoc(before, d, BASE);
    LowStep(s, i);
    LowStep(t, i);
    PowStep(BASE, i);
    hide Pow;
    hide Le;
    SumStep(d, c', if i < |s| then s[i] else 0, if i < |t| then t[i] else 0, c, Pow(BASE, i));
  }

  function Low(s: seq<Word>, i: nat): seq<Word> {
    if i < |s| then s[..i] else s
  }

  lemma LowStep(s: seq<Word>, i: nat)
    ensures Val(Low(s, i + 1)) == Val(Low(s, i)) + (if i < |s| then s[i] else 0) * Pow(BASE, i)
  {
    if i < |s| {
      LeTake(s, i, BASE);
      assert Low(s, i + 1) == s[..i + 1];
    } else {
      assert 0 * Pow(BASE, i) == 0;
    }
  }

  lemma SumStep(d: int, c: int, left: int, right: int, c0: int, p: int)
    requires d == (left + right + c0) % BASE && c == (left + right + c0) / BASE
    ensures d * p + c * (BASE * p) == left * p + right * p + c0 * p
  {
    assert left + right + c0 == d + c * BASE;
    assert c * (BASE * p) == (c * BASE) * p;
    assert (left + right + c0) * p == left * p + right * p + c0 * p;
  }

  lemma NoCarryOut(s: seq<Word>, t: seq<Word>, out: seq<Word>, carry: nat)
    requires |out| > |s| && |out| > |t|
    requires Val(out) + carry * Pow(BASE, |out|) == Val(s) + Val(t)
    ensures carry == 0
  {
    ValBound(s);
    ValBound(t);
    PowMonotone(BASE, |s|, |out| - 1);
    PowMonotone(BASE, |t|, |out| - 1);
    PowStep(BASE, |out| - 1);
    PowPositive(BASE, |out|);
    MulCancelLess(carry, 1, Pow(BASE, |out|));
  }

  /** The difference modulo the width of the minuend, and exact when the minuend is not smaller. */
  method Subtract(lhs: Big, rhs: Big) returns (r: Big)
    ensures Pow(BASE, |lhs.limbs|) > 0 && r.Value() == (lhs.Value() - rhs.Value()) % Pow(BASE, |lhs.limbs|)
    ensures rhs.Value() <= lhs.Value() ==> r.Value() == lhs.Value() - rhs.Value()
  {
    ghost var width := |lhs.limbs|;
    var low := if |rhs.limbs| <= |lhs.limbs| then rhs.limbs else rhs.limbs[..|lhs.limbs|];
    var out, borrow := SubtractLimbs(lhs.limbs, low);
    LowLimbs(rhs.limbs, low, width);
    ValBound(out);
    ValBound(lhs.limbs);
    WrappedDifference(Val(out), lhs.Value(), Val(low), rhs.Value(), borrow, Pow(BASE, width));
    r := Normalize(out);
  }

  lemma LowLimbs(limbs: seq<Word>, low: seq<Word>, width: nat)
    requires low == if |limbs| <= width then limbs else limbs[..width]
    ensures Pow(BASE, width) > 0 && 0 <= Val(low) <= Val(limbs) && Cong(Val(low), Val(limbs), Pow(BASE, width))
  {
    PowPositive(BASE, width);
    if |limbs| > width {
      LeDivMod(limbs, width, BASE);
      ValBound(low);
      ModSmall(Val(low), Pow(BASE, width));
      LeSplit(limbs, width, BASE);
      MulBound(0, Pow(BASE, width), 0, Val(limbs[width..]));
    }
  }

  lemma WrappedDifference(d: int, a: int, low: int, b: int, borrow: int, p: int)
    requires p > 0 && 0 <= d < p && d == a - low + borrow * p && Cong(low, b, p) && 0 <= a < p
    ensures d == (a - b) % p
    ensures 0 <= b <= a ==> d == a - b
  {
    CongSub(a, a, low, b, p);
    CongFrom(d, a - low, p, borrow);
    ModSmall(d, p);
    if 0 <= b <= a {
      ModSmall(a - b, p);
    }
  }

  method Multiply(lhs: Big, rhs: Big) returns (r: Big)
    ensures r.Value() == lhs.Value() * rhs.Value()
  {
    ZeroIff(lhs);
    ZeroIff(rhs);
    if lhs.IsZero() || rhs.IsZero() {
      return ZERO;
    }
    var output := new Word[|lhs.limbs| + |rhs.limbs| + 1](_ => 0);
    LeZeros(output[..], BASE);
    MultiplyInto(output, lhs.limbs, rhs.limbs);
    r := Normalize(output[..]);
  }

  method ShiftLeftBits(value: Big, bits: nat) returns (r: Big)
    ensures r.Value() == value.Value() * Pow(2, bits)
  {
    ZeroIff(value);
    if value.IsZero() {
      return ZERO;
    }
    var limbShift, bitShift := bits / 32, bits % 32;
    var count := |value.limbs|;
    var output := new Word[count + limbShift + 1](_ => 0);
    PowPositive(2, bitShift);
    ghost var p := Pow(2, bitShift);
    var carry: Word := 0;
    LeZeros(output[..limbShift], BASE);
    for i := 0 to count
      invariant forall k :: i + limbShift <= k < output.Length ==> output[k] == 0
      invariant carry < p
      invariant Val(output[..i + limbShift]) + carry * Pow(BASE, i + limbShift)
             == Val(value.limbs[..i]) * p * Pow(BASE, limbShift)
    {
      ghost var before, c := output[..i + limbShift], carry;
      var low, high := ShiftLimb(value.limbs[i], bitShift, carry);
      output[i + limbShift] := low;
      carry := high;
      assert output[..i + 1 + limbShift] == before + [low];
      ShiftedPrefix(value.limbs, before, i, limbShift, p, c, low, high);
    }
    ghost var before := output[..count + limbShift];
    output[count + limbShift] := carry;
    assert output[..] == before + [carry] && value.limbs[..count] == value.limbs;
    LeSnoc(before, carry, BASE);
    SplitShift(bits, value.Value());
    r := Normalize(output[..]);
  }

  /** `(limb << bitShift) | carry`, split into the low word and what moves up. */
  method ShiftLimb(limb: Word, bitShift: nat, carry: Word) returns (low: Word, high: Word)
    requires bitShift < 32 && carry < Pow(2, bitShift)
    ensures low + high * BASE == limb * Pow(2, bitShift) + carry
    ensures high < Pow(2, bitShift)
  {
    PowPositive(2, bitShift);
    BitOrShifted(carry, limb, bitShift);
    BitOrCommutes(carry, limb * Pow(2, bitShift));
    var shifted := BitOr(limb * Pow(2, bitShift), carry);
    PowMonotone(2, bitShift, 31);
    PowStep(2, 31);
    Montgomery.Pow32();
    hide Pow;
    ShiftedRange(limb, Pow(2, bitShift), carry);
    low, high := shifted % BASE, shifted / BASE;
  }

  lemma ShiftedRange(limb: Word, p: int, carry: int)
    requires 0 <= carry < p
    ensures 0 <= limb * p + carry && (limb * p + carry) / BASE < p
  {
    MulBound(limb, BASE - 1, p, p);
    QuotientBelow(limb * p + carry, p);
  }

  lemma QuotientBelow(x: int, p: int)
    requires 0 <= x < p * BASE
    ensures x / BASE < p
  {
  }

  lemma ShiftedPrefix(limbs: seq<Word>, before: seq<Word>, i: nat, limbShift: nat, p: nat, c: Word, low: Word, high: Word)
    requires i < |limbs| && |before| == i + limbShift
    requires low + high * BASE == limbs[i] * p + c
    requires Val(before) + c * Pow(BASE, i + limbShift) == Val(limbs[..i]) * p * Pow(BASE, limbShift)
    ensures Val(before + [low]) + high * Pow(BASE, i + 1 + limbShift)
         == Val(limbs[..i + 1]) * p * Pow(BASE, limbShift)
  {
    LeSnoc(before, low, BASE);
    LeTake(limbs, i, BASE);
    PowAdd(BASE, i, limbShift);
    PowStep(BASE, i + limbShift);
    hide Pow;
    hide Val;
    ShiftStepValue(low, high, limbs[i], p, c, Val(limbs[..i]), Pow(BASE, i), Pow(BASE, limbShift));
  }

  lemma ShiftStepValue(low: int, high: int, limb: int, p: int, c: int, v: int, q: int, s: int)
    requires low + high * BASE == limb * p + c
    ensures low * (q * s) + high * (BASE * (q * s)) + v * p * s == c * (q * s) + (v + limb * q) * p * s
  {
    var t := q * s;
    assert high * (BASE * t) == (high * BASE) * t;
    assert low * t + (high * BASE) * t == (limb * p + c) * t;
    assert (limb * p) * t == ((limb * q) * p) * s;
    assert (v + limb * q) * p * s == (v * p + (limb * q) * p) * s;
  }

  lemma SplitShift(bits: nat, v: nat)
    ensures v * Pow(2, bits % 32) * Pow(BASE, bits / 32) == v * Pow(2, bits)
  {
    var low, high := bits % 32, bits / 32;
    assert low + 32 * high == bits;
    Montgomery.PowBase(high);
    PowAdd(2, low, 32 * high);
    hide Pow;
    assert v * Pow(2, low) * Pow(BASE, high) == v * (Pow(2, low) * Pow(BASE, high));
  }

  // ----- reduction -----

  /** Shift-and-subtract reduction; each round removes at least one bit from the remainder. */
  method Mod(value: Big, modulus: Big) returns (r: Big)
    ensures modulus.Value() == 0 ==> r == value
    ensures modulus.Value() > 0 ==> r.Value() == value.Value() % modulus.Value()
  {
    ZeroIff(modulus);
    var remainder := value;
    var order := Compare(remainder, modulus);
    if modulus.IsZero() || order < 0 {
      if !modulus.IsZero() {
        ModSmall(value.Value(), modulus.Value());
      }
      return remainder;
    }
    var modulusBits := BitLength(modulus);
    while order >= 0
      invariant Cong(remainder.Value(), value.Value(), modulus.Value())
      invariant order < 0 <==> remainder.Value() < modulus.Value()
      decreases NumBits(remainder.Value())
    {
      remainder := SubtractShifted(remainder, modulus, modulusBits);
      order := Compare(remainder, modulus);
    }
    ModSmall(remainder.Value(), modulus.Value());
    r := remainder;
  }

  method SubtractShifted(remainder: Big, modulus: Big, modulusBits: nat) returns (r: Big)
    requires 0 < modulus.Value() <= remainder.Value() && modulusBits == NumBits(modulus.Value())
    ensures Cong(r.Value(), remainder.Value(), modulus.Value())
    ensures NumBits(r.Value()) < NumBits(remainder.Value())
  {
    hide Pow;
    hide NumBits;
    ghost var x, m := remainder.Value(), modulus.Value();
    var bits := BitLength(remainder);
    BitsMonotone(m, x);
    var shift := bits - modulusBits;
    var shifted := ShiftLeftBits(modulus, shift);
    var order := Compare(shifted, remainder);
    AlignedShift(x, m, shift);
    if order > 0 {
      shift := shift - 1;
      shifted := ShiftLeftBits(modulus, shift);
    }
    r := Subtract(remainder, shifted);
    NumBitsLess(r.Value(), bits - 1);
    NegatedMultiple(m, Pow(2, shift));
    CongFrom(r.Value(), x, m, -Pow(2, shift));
  }

  lemma NegatedMultiple(m: int, p: int)
    ensures (-p) * m == -(m * p)
  {
  }

  lemma BitsMonotone(m: nat, x: nat)
    requires 0 < m <= x
    ensures 0 < NumBits(m) <= NumBits(x)
  {
    NumBitsBounds(m);
    NumBitsBounds(x);
    NumBitsLess(m, NumBits(x));
  }

  /** Aligning the top bits leaves the shifted modulus within a factor two of the remainder. */
  lemma AlignedShift(x: nat, m: nat, shift: nat)
    requires 0 < m <= x && shift == NumBits(x) - NumBits(m)
    ensures m * Pow(2, shift) <= x ==> 0 <= x - m * Pow(2, shift) < Pow(2, NumBits(x) - 1)
    ensures m * Pow(2, shift) > x ==> shift > 0 && 0 <= x - m * Pow(2, shift - 1) < Pow(2, NumBits(x) - 1)
  {
    var n, k := NumBits(x), NumBits(m);
    NumBitsBounds(x);
    NumBitsBounds(m);
    PowPositive(2, shift);
    PowAdd(2, k - 1, shift);
    PowAdd(2, k, shift);
    PowStep(2, n - 1);
    hide Pow;
    hide NumBits;
    ShiftedTop(m, Pow(2, k - 1), Pow(2, k), Pow(2, shift));
    if m * Pow(2, shift) > x {
      PowZero();
      PowStep(2, shift - 1);
      assert m * Pow(2, shift) == 2 * (m * Pow(2, shift - 1)) by { MulTwice(m, Pow(2, shift - 1)); }
    }
  }

  lemma PowZero()
    ensures Pow(2, 0) == 1
  {
  }

  lemma ShiftedTop(m: int, a: int, b: int, p: int)
    requires 0 <= a <= m < b && p > 0
    ensures a * p <= m * p < b * p
  {
    MulBound(a, m, p, p);
    MulBound(m, b - 1, p, p);
    assert (b - 1) * p == b * p - p;
  }

  method ModAdd(lhs: Big, rhs: Big, modulus: Big) returns (r: Result<Big>)
    ensures r.Ok? <==> modulus.Value() > 0
    ensures r.Ok? ==> r.value.Value() == (lhs.Value() + rhs.Value()) % modulus.Value()
  {
    ZeroIff(modulus);
    if modulus.IsZero() {
      return Err(InvalidArgument);
    }
    var left := Mod(lhs, modulus);
    var right := Mod(rhs, modulus);
    var sum := Add(left, right);
    var reduced := Mod(sum, modulus);
    CongMod(lhs.Value(), modulus.Value());
    CongMod(rhs.Value(), modulus.Value());
    CongAdd(left.Value(), lhs.Value(), right.Value(), rhs.Value(), modulus.Value());
    r := Ok(reduced);
  }

  method ModSubtract(lhs: Big, rhs: Big, modulus: Big) returns (r: Result<Big>)
    ensures r.Ok? <==> modulus.Value() > 0
    ensures r.Ok? ==> r.value.Value() == (lhs.Value() - rhs.Value()) % modulus.Value()
  {
    ZeroIff(modulus);
    if modulus.IsZero() {
      return Err(InvalidArgument);
    }
    var left := Mod(lhs, modulus);
    var right := Mod(rhs, modulus);
    ghost var m := modulus.Value();
    DifferenceModulo(lhs.Value(), rhs.Value(), m);
    hide *;
    var order := Compare(left, right);
    if order >= 0 {
      var difference := Subtract(left, right);
      return Ok(difference);
    }
    var raised := Add(left, modulus);
    var difference := Subtract(raised, right);
    r := Ok(difference);
  }

  lemma DifferenceModulo(a: int, b: int, m: int)
    requires m > 0
    ensures (a - b) % m == if a % m >= b % m then a % m - b % m else a % m + m - b % m
  {
    CongMod(a, m);
    CongMod(b, m);
    CongSub(a % m, a, b % m, b, m);
    var d := a % m - b % m;
    if d >= 0 {
      ModSmall(d, m);
    } else {
      ModAddMultiple(d, 1, m);
      ModSmall(d + m, m);
    }
  }

  method ModMultiply(lhs: Big, rhs: Big, modulus: Big) returns (r: Result<Big>)
    ensures r.Ok? <==> modulus.Value() > 0
    ensures r.Ok? ==> r.value.Value() == (lhs.Value() * rhs.Value()) % modulus.Value()
  {
    ZeroIff(modulus);
    if modulus.IsZero() {
      return Err(InvalidArgument);
    }
    var left := Mod(lhs, modulus);
    var right := Mod(rhs, modulus);
    var product := Multiply(left, right);
    var reduced := Mod(product, modulus);
    CongMod(lhs.Value(), modulus.Value());
    CongMod(rhs.Value(), modulus.Value());
    CongMul(left.Value(), lhs.Value(), right.Value(), rhs.Value(), modulus.Value());
    r := Ok(reduced);
  }
}
