/** Positional numbers: little-endian limbs, big-endian bytes, and single bits. */
module Digits {
  import opened NumberTheory

  const BASE: int := 0x1_0000_0000
  type Word = x: int | 0 <= x < 0x1_0000_0000
  type Byte = x: int | 0 <= x < 0x100

  // ----- little-endian values in any base -----

  function Le(s: seq<int>, b: int): int {
    if |s| == 0 then 0 else s[0] + b * Le(s[1..], b)
  }

  ghost predicate InBase(s: seq<int>, b: int) {
    forall i :: 0 <= i < |s| ==> 0 <= s[i] < b
  }

  lemma DigitBound(x: int, v: int, q: int, b: int)
    requires 0 <= x < b && 0 <= v < q
    ensures 0 <= x + b * v < b * q
  {
    assert b * v <= b * (q - 1);
    assert b * (q - 1) == b * q - b;
    assert b * v >= 0;
  }

  lemma {:induction false} LeBound(s: seq<int>, b: int)
    requires b > 0 && InBase(s, b)
    ensures 0 <= Le(s, b) < Pow(b, |s|)
    decreases |s|
  {
    if |s| > 0 {
      LeBound(s[1..], b);
      DigitBound(s[0], Le(s[1..], b), Pow(b, |s| - 1), b);
    }
  }

  lemma {:induction false} LeConcat(s: seq<int>, t: seq<int>, b: int)
    ensures Le(s + t, b) == Le(s, b) + Pow(b, |s|) * Le(t, b)
    decreases |s|
  {
    if |s| == 0 {
      assert s + t == t;
    } else {
      LeConcat(s[1..], t, b);
      assert (s + t)[1..] == s[1..] + t;
      var q := Pow(b, |s| - 1);
      assert b * (q * Le(t, b)) == (b * q) * Le(t, b);
    }
  }

  lemma LeSnoc(s: seq<int>, x: int, b: int)
    ensures Le(s + [x], b) == Le(s, b) + x * Pow(b, |s|)
  {
    hide Pow;
    LeConcat(s, [x], b);
    assert Le([x], b) == x + b * Le([], b);
  }

  lemma LeTake(s: seq<int>, k: nat, b: int)
    requires k < |s|
    ensures Le(s[..k + 1], b) == Le(s[..k], b) + s[k] * Pow(b, k)
  {
    assert s[..k + 1] == s[..k] + [s[k]];
    LeSnoc(s[..k], s[k], b);
  }

  lemma LeSplit(s: seq<int>, k: nat, b: int)
    requires k <= |s|
    ensures Le(s, b) == Le(s[..k], b) + Pow(b, k) * Le(s[k..], b)
  {
    assert s == s[..k] + s[k..];
    LeConcat(s[..k], s[k..], b);
  }

  lemma LeHead(s: seq<int>, k: nat, b: int)
    requires k < |s|
    ensures Le(s[k..], b) == s[k] + b * Le(s[k + 1..], b)
  {
    assert s[k..][1..] == s[k + 1..];
  }

  lemma LeUpdate(s: seq<int>, k: nat, x: int, b: int)
    requires k < |s|
    ensures Le(s[k := x], b) == Le(s, b) + (x - s[k]) * Pow(b, k)
  {
    var t := s[k := x];
    LeSplit(s, k + 1, b);
    LeSplit(t, k + 1, b);
    LeTake(s, k, b);
    LeTake(t, k, b);
    assert s[..k] == t[..k] && s[k + 1..] == t[k + 1..];
    assert (x - s[k]) * Pow(b, k) == x * Pow(b, k) - s[k] * Pow(b, k);
  }

  lemma LowHigh(low: seq<int>, high: seq<int>, b: int)
    requires b > 0 && InBase(low, b)
    ensures Pow(b, |low|) > 0
    ensures var v := Le(low, b) + Pow(b, |low|) * Le(high, b);
            v % Pow(b, |low|) == Le(low, b) && v / Pow(b, |low|) == Le(high, b)
  {
    LeBound(low, b);
    LowHighParts(Le(low, b), Pow(b, |low|), Le(high, b));
  }

  lemma LowHighParts(l: int, p: int, h: int)
    requires 0 <= l < p
    ensures (l + p * h) % p == l && (l + p * h) / p == h
  {
    DivModUnique(l + p * h, p, h, l);
  }

  /** The low k digits are the residue modulo b^k, the rest the quotient. */
  lemma LeDivMod(s: seq<int>, k: nat, b: int)
    requires b > 0 && InBase(s, b) && k <= |s|
    ensures Pow(b, k) > 0
    ensures Le(s[..k], b) == Le(s, b) % Pow(b, k)
    ensures Le(s[k..], b) == Le(s, b) / Pow(b, k)
  {
    hide Le;
    LeSplit(s, k, b);
    LowHigh(s[..k], s[k..], b);
  }

  /** Equal values of equal length have equal digits. */
  lemma {:induction false} LeInjective(s: seq<int>, t: seq<int>, b: int)
    requires b > 0 && InBase(s, b) && InBase(t, b) && |s| == |t|
    requires Le(s, b) == Le(t, b)
    ensures s == t
    decreases |s|
  {
    if |s| > 0 {
      var x, y := Le(s[1..], b), Le(t[1..], b);
      DivModUnique(Le(s, b), b, x, s[0]);
      DivModUnique(Le(t, b), b, y, t[0]);
      LeInjective(s[1..], t[1..], b);
      assert s == [s[0]] + s[1..] && t == [t[0]] + t[1..];
    }
  }

  lemma {:induction false} LeZeros(s: seq<int>, b: int)
    requires forall i :: 0 <= i < |s| ==> s[i] == 0
    ensures Le(s, b) == 0
    decreases |s|
  {
    if |s| > 0 {
      LeZeros(s[1..], b);
    }
  }

  // ----- limbs -----

  /** The number held by 32-bit limbs, least significant limb first. */
  function Val(s: seq<Word>): nat {
    LeBound(s, BASE);
    Le(s, BASE)
  }

  lemma ValBound(s: seq<Word>)
    ensures Val(s) < Pow(BASE, |s|)
  {
    LeBound(s, BASE);
  }

  // ----- big-endian bytes -----

  /** The number a big-endian byte string denotes, OS2IP of section 4.2 of RFC 8017. */
  function Be(s: seq<Byte>): nat {
    if |s| == 0 then 0 else Be(s[..|s| - 1]) * 256 + s[|s| - 1]
  }

  lemma {:induction false} BeBound(s: seq<Byte>)
    ensures Be(s) < Pow(256, |s|)
    decreases |s|
  {
    if |s| > 0 {
      BeBound(s[..|s| - 1]);
    }
  }

  lemma {:induction false} BeZeros(s: seq<Byte>)
    requires forall i :: 0 <= i < |s| ==> s[i] == 0
    ensures Be(s) == 0
    decreases |s|
  {
    if |s| > 0 {
      BeZeros(s[..|s| - 1]);
    }
  }

  lemma BeSnoc(s: seq<Byte>, x: Byte)
    ensures Be(s + [x]) == Be(s) * 256 + x
  {
    assert (s + [x])[..|s|] == s;
  }

  lemma {:induction false} BeConcat(s: seq<Byte>, t: seq<Byte>)
    ensures Be(s + t) == Be(s) * Pow(256, |t|) + Be(t)
    decreases |t|
  {
    if |t| == 0 {
      assert s + t == s;
    } else {
      var t' := t[..|t| - 1];
      BeConcat(s, t');
      assert (s + t)[..|s + t| - 1] == s + t';
      assert (Be(s) * Pow(256, |t'|)) * 256 == Be(s) * Pow(256, |t|);
    }
  }

  lemma BeCons(x: Byte, s: seq<Byte>)
    ensures Be([x] + s) == x * Pow(256, |s|) + Be(s)
  {
    BeConcat([x], s);
    BeOne(x);
  }

  lemma BeOne(x: Byte)
    ensures Be([x]) == x
  {
    assert [x][..0] == [];
  }

  lemma {:induction false} BeInjective(s: seq<Byte>, t: seq<Byte>)
    requires |s| == |t| && Be(s) == Be(t)
    ensures s == t
    decreases |s|
  {
    if |s| > 0 {
      var n := |s| - 1;
      BeInjective(s[..n], t[..n]);
      assert s == s[..n] + [s[n]] && t == t[..n] + [t[n]];
    }
  }

  /** The big-endian encoding of n in exactly `len` bytes, I2OSP of section 4.1 of RFC 8017. */
  function ToBe(n: nat, len: nat): (s: seq<Byte>)
    ensures |s| == len
    decreases len
  {
    if len == 0 then [] else ToBe(n / 256, len - 1) + [n % 256]
  }

  lemma {:induction false} BeOfToBe(n: nat, len: nat)
    requires n < Pow(256, len)
    ensures Be(ToBe(n, len)) == n
    decreases len
  {
    if len > 0 {
      BeOfToBe(n / 256, len - 1);
      BeSnoc(ToBe(n / 256, len - 1), n % 256);
    }
  }

  lemma ToBeOfBe(s: seq<Byte>)
    ensures ToBe(Be(s), |s|) == s
  {
    BeBound(s);
    BeOfToBe(Be(s), |s|);
    BeInjective(ToBe(Be(s), |s|), s);
  }

  /** `bytes` without its leading zero bytes. */
  function StripZeros(bytes: seq<Byte>): (r: seq<Byte>)
    ensures |r| <= |bytes|
    ensures |r| > 0 ==> r[0] != 0
    decreases |bytes|
  {
    if |bytes| > 0 && bytes[0] == 0 then StripZeros(bytes[1..]) else bytes
  }

  lemma {:induction false} BeStripZeros(bytes: seq<Byte>)
    ensures Be(StripZeros(bytes)) == Be(bytes)
    decreases |bytes|
  {
    if |bytes| > 0 && bytes[0] == 0 {
      BeStripZeros(bytes[1..]);
      assert bytes == [0] + bytes[1..];
      BeCons(0, bytes[1..]);
    }
  }

  /** A nonzero leading byte pins the length: Be(s) >= 256^(|s|-1). */
  lemma BeLeading(s: seq<Byte>)
    requires |s| > 0 && s[0] != 0
    ensures Be(s) >= Pow(256, |s| - 1) > 0
  {
    assert s == [s[0]] + s[1..];
    BeCons(s[0], s[1..]);
    PowPositive(256, |s| - 1);
  }

  /** The shortest encoding of a number is unique. */
  lemma StripZerosUnique(s: seq<Byte>, t: seq<Byte>)
    requires (|s| > 0 ==> s[0] != 0) && (|t| > 0 ==> t[0] != 0)
    requires Be(s) == Be(t)
    ensures s == t
  {
    BeBound(s);
    BeBound(t);
    if |s| < |t| {
      PowMonotone(256, |s|, |t| - 1);
      BeLeading(t);
    } else if |t| < |s| {
      PowMonotone(256, |t|, |s| - 1);
      BeLeading(s);
    }
    BeInjective(s, t);
  }

  // ----- bits -----

  /** `(x >> i) & 1`. */
  function Bit(x: nat, i: nat): (b: nat)
    ensures b <= 1
  {
    PowPositive(2, i);
    (x / Pow(2, i)) % 2
  }

  /** Dropping one bit fewer appends the bit below. */
  lemma ShiftStep(x: nat, i: nat)
    requires i > 0
    ensures Pow(2, i) > 0 && Pow(2, i - 1) > 0
    ensures x / Pow(2, i - 1) == 2 * (x / Pow(2, i)) + Bit(x, i - 1)
  {
    PowPositive(2, i);
    PowPositive(2, i - 1);
    var q := Pow(2, i - 1);
    DivDiv(x, q, 2);
    assert q * 2 == Pow(2, i);
    assert x / q == ((x / q) / 2) * 2 + (x / q) % 2;
  }

  lemma BitOfLowByte(high: nat, low: Byte, i: nat)
    requires i < 8
    ensures Bit(high * 256 + low, i) == Bit(low, i)
  {
    PowPositive(2, i);
    PowPositive(2, 7 - i);
    PowAdd(2, i, 7 - i);
    assert Pow(2, 7) == 128;
    var p, k := Pow(2, i), high * Pow(2, 7 - i);
    assert high * 256 == (2 * k) * p;
    ModAddMultiple(low, 2 * k, p);
    ModAddMultiple(low / p, k, 2);
  }

  lemma BitOfHighBytes(high: nat, low: Byte, i: nat)
    requires i >= 8
    ensures Bit(high * 256 + low, i) == Bit(high, i - 8)
  {
    PowPositive(2, i - 8);
    PowAdd(2, 8, i - 8);
    assert Pow(2, 8) == 256;
    DivModUnique(high * 256 + low, 256, high, low);
    DivDiv(high * 256 + low, 256, Pow(2, i - 8));
  }

  /** Truncating to n bits leaves the bits below n alone. */
  lemma BitOfTruncated(x: nat, n: nat, i: nat)
    requires i < n
    ensures Pow(2, n) > 0 && x % Pow(2, n) >= 0 && Bit(x % Pow(2, n), i) == Bit(x, i)
  {
    PowPositive(2, i);
    PowPositive(2, n - i);
    PowAdd(2, i, n - i);
    var a, b := Pow(2, i), Pow(2, n - i);
    DivDiv(x, a, b);
    ModSmall(x % a, a);
    ModAddMultiple(x % a, (x / a) % b, a);
    assert (x % (a * b)) / a == (x / a) % b;
    PowPositive(2, n - i - 1);
    ModMod(x / a, 2, Pow(2, n - i - 1));
  }

  /** `a | b` on unsigned integers. */
  function BitOr(a: nat, b: nat): nat {
    if a == 0 then b
    else if b == 0 then a
    else 2 * BitOr(a / 2, b / 2) + (if a % 2 == 1 || b % 2 == 1 then 1 else 0)
  }

  lemma {:induction false} BitOrZero(a: nat, b: nat)
    ensures BitOr(a, b) == 0 <==> a == 0 && b == 0
    decreases a
  {
    if a > 0 && b > 0 {
      BitOrZero(a / 2, b / 2);
    }
  }

  lemma {:induction false} BitOrBound(a: nat, b: nat, k: nat)
    requires a < Pow(2, k) && b < Pow(2, k)
    ensures BitOr(a, b) < Pow(2, k)
    decreases k
  {
    if k > 0 && a > 0 && b > 0 {
      BitOrBound(a / 2, b / 2, k - 1);
    }
  }

  /** Or-ing in a value shifted above the bits in use adds it. */
  lemma {:induction false} BitOrShifted(a: nat, b: nat, k: nat)
    requires a < Pow(2, k)
    ensures b * Pow(2, k) >= 0 && BitOr(a, b * Pow(2, k)) == a + b * Pow(2, k)
    decreases k
  {
    PowPositive(2, k);
    var c := b * Pow(2, k);
    assert c >= 0;
    if a > 0 && c > 0 {
      PowPositive(2, k - 1);
      var d := b * Pow(2, k - 1);
      assert c == 2 * d;
      BitOrShifted(a / 2, b, k - 1);
    }
  }

  lemma {:induction false} BitOrCommutes(a: nat, b: nat)
    ensures BitOr(a, b) == BitOr(b, a)
    decreases a
  {
    if a > 0 && b > 0 {
      BitOrCommutes(a / 2, b / 2);
    }
  }

  function BitAnd(a: nat, b: nat): nat {
    if a == 0 || b == 0 then 0
    else 2 * BitAnd(a / 2, b / 2) + (if a % 2 == 1 && b % 2 == 1 then 1 else 0)
  }

  lemma {:induction false} BitAndBound(a: nat, b: nat)
    ensures BitAnd(a, b) <= a && BitAnd(a, 0) == 0
    decreases a
  {
    if a > 0 && b > 0 {
      BitAndBound(a / 2, b / 2);
    }
  }

  /** A full mask keeps a number it covers. */
  lemma {:induction false} BitAndOnes(a: nat, k: nat)
    requires a < Pow(2, k)
    ensures BitAnd(a, Pow(2, k) - 1) == a
    decreases k
  {
    if a > 0 {
      PowPositive(2, k - 1);
      BitAndOnes(a / 2, k - 1);
    }
  }

  /** The number of significant bits. */
  function NumBits(n: nat): nat {
    if n == 0 then 0 else 1 + NumBits(n / 2)
  }

  lemma {:induction false} NumBitsBounds(n: nat)
    ensures n < Pow(2, NumBits(n))
    ensures n > 0 ==> NumBits(n) > 0 && Pow(2, NumBits(n) - 1) <= n
    decreases n
  {
    if n > 0 {
      NumBitsBounds(n / 2);
    }
  }

  lemma {:induction false} NumBitsIs(n: nat, k: nat)
    requires k > 0 && Pow(2, k - 1) <= n < Pow(2, k)
    ensures NumBits(n) == k
    decreases k
  {
    if k > 1 {
      PowPositive(2, k - 2);
      NumBitsIs(n / 2, k - 1);
    }
  }

  lemma NumBitsLess(n: nat, k: nat)
    requires n < Pow(2, k)
    ensures NumBits(n) <= k
  {
    NumBitsBounds(n);
    if n > 0 {
      PowOrder(2, k, NumBits(n) - 1);
    }
  }

  lemma PowOrder(b: int, e: nat, f: nat)
    requires b > 0
    ensures e <= f ==> Pow(b, e) <= Pow(b, f)
  {
    if e <= f {
      PowMonotone(b, e, f);
    }
  }
}
