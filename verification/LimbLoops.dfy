/** The two inner loops every limb multiplication in the library is made of. */
module LimbLoops {
  import opened NumberTheory
  import opened Digits

  lemma RowStep(v: int, v': int, a: int, f: int, r: int, c: int, p: int, product: int, c': int)
    requires product == f * r + a + c
    requires c' == product / BASE && v' == v + (product % BASE - a) * p
    ensures v' + c' * (BASE * p) == v + c * p + (f * r) * p
  {
    assert product == BASE * c' + product % BASE;
    assert c' * (BASE * p) == (BASE * c') * p;
    assert (product % BASE - a) * p + (BASE * c') * p == (product - a) * p;
    assert (product - a) * p == (f * r) * p + c * p;
  }

  lemma ProductFits(f: Word, r: Word, a: Word, c: Word)
    ensures f * r + a + c <= 0xFFFF_FFFF_FFFF_FFFF
  {
    MulBound(f, 0xFFFF_FFFF, r, 0xFFFF_FFFF);
  }

  /** Adds `factor * row`, shifted up by `i` limbs, into the accumulator; what does not fit into
      the touched limbs comes back as `carry`. */
  method AddProductRow(acc: array<Word>, i: nat, factor: Word, row: seq<Word>) returns (carry: Word)
    requires i + |row| <= acc.Length
    modifies acc
    ensures Val(acc[..]) + carry * Pow(BASE, i + |row|)
         == old(Val(acc[..])) + factor * Val(row) * Pow(BASE, i)
  {
    ghost var v0, q := Val(acc[..]), Pow(BASE, i);
    carry := 0;
    for j := 0 to |row|
      invariant Val(acc[..]) + carry * Pow(BASE, i + j) == v0 + factor * Val(row[..j]) * q
    {
      ghost var before, p := acc[..], Pow(BASE, i + j);
      ghost var c, a := carry, acc[i + j];
      ProductFits(factor, row[j], acc[i + j], carry);
      var product := factor * row[j] + acc[i + j] + carry;
      var low: Word := product % BASE;
      acc[i + j] := low;
      carry := product / BASE;
      assert acc[..] == before[i + j := low];
      LeUpdate(before, i + j, low, BASE);
      RowStep(Val(before), Val(acc[..]), a, factor, row[j], c, p, product, carry);
      LeTake(row, j, BASE);
      PowAdd(BASE, i, j);
      RowProduct(factor, Val(row[..j]), row[j], Pow(BASE, j), q);
    }
    assert row[..|row|] == row;
  }

  lemma RowProduct(f: int, v: int, r: int, x: int, q: int)
    ensures f * (v + r * x) * q == f * v * q + (f * r) * (q * x)
  {
    assert f * (v + r * x) == f * v + (f * r) * x;
    assert ((f * r) * x) * q == (f * r) * (q * x);
  }

  const WORD64: int := 0x1_0000_0000_0000_0000

  /** The carry that survives the 64-bit addition to its limb: all of it, unless the sum wraps. */
  function Surviving(limbs: seq<Word>, index: nat, carry: nat): int {
    if index < |limbs| && limbs[index] + carry >= WORD64 then carry - WORD64 else carry
  }

  /** Ripples a 64-bit `carry` upwards from limb `index`; a carry out of the top limb is dropped. */
  method AddCarry(limbs: array<Word>, index: nat, carry: nat)
    requires carry < WORD64
    modifies limbs
    ensures Pow(BASE, limbs.Length) > 0
    ensures Val(limbs[..])
         == (old(Val(limbs[..])) + Surviving(old(limbs[..]), index, carry) * Pow(BASE, index)) % Pow(BASE, limbs.Length)
  {
    ghost var total := Val(limbs[..]) + Surviving(limbs[..], index, carry) * Pow(BASE, index);
    var k, c := index, carry;
    ghost var first := Surviving(limbs[..], index, carry);
    while c != 0 && k < limbs.Length
      invariant index <= k && 0 <= c < WORD64
      invariant first == (if k == index then Surviving(limbs[..], k, c) else c)
      invariant k > index ==> c <= 0xFFFF_FFFF
      invariant Val(limbs[..]) + first * Pow(BASE, k) == total
      decreases limbs.Length - k
    {
      ghost var before := limbs[..];
      var sum := (limbs[k] + c) % WORD64;
      var low: Word := sum % BASE;
      assert sum == before[k] + first;
      CarryStep(before, k, low, first, sum / BASE);
      limbs[k] := low;
      assert limbs[..] == before[k := low];
      c := sum / BASE;
      first := c;
      k := k + 1;
    }
    ValBound(limbs[..]);
    if c == 0 {
      ModSmall(total, Pow(BASE, limbs.Length));
    } else {
      PowAdd(BASE, limbs.Length, k - limbs.Length);
      DroppedCarry(Val(limbs[..]), c, Pow(BASE, limbs.Length), Pow(BASE, k - limbs.Length));
    }
  }

  lemma CarryStep(s: seq<Word>, k: nat, low: Word, carry: int, next: int)
    requires k < |s| && s[k] + carry == low + next * BASE
    ensures Val(s[k := low]) + next * Pow(BASE, k + 1) == Val(s) + carry * Pow(BASE, k)
  {
    LeUpdate(s, k, low, BASE);
    hide Val;
    RowStep(Val(s), Val(s[k := low]), s[k], 0, 0, carry, Pow(BASE, k), s[k] + carry, next);
  }

  lemma DroppedCarry(v: int, c: int, p: int, q: int)
    requires 0 <= v < p
    ensures (v + c * (p * q)) % p == v
  {
    assert c * (p * q) == (c * q) * p;
    ModAddMultiple(v, c * q, p);
    ModSmall(v, p);
  }

  /** Subtracts limb by limb with a borrow; the result is the difference modulo 2^(32 * width). */
  method SubtractLimbs(lhs: seq<Word>, rhs: seq<Word>) returns (out: seq<Word>, borrow: nat)
    requires |rhs| <= |lhs|
    ensures |out| == |lhs| && borrow <= 1
    ensures Val(out) == Val(lhs) - Val(rhs) + borrow * Pow(BASE, |lhs|)
    ensures borrow == 1 <==> Val(lhs) < Val(rhs)
  {
    var output := new Word[|lhs|](_ => 0);
    borrow := 0;
    LeZeros(output[..], BASE);
    for i := 0 to |lhs|
      invariant borrow <= 1
      invariant Val(output[..i]) - borrow * Pow(BASE, i) == Val(lhs[..i]) - Val(rhs[..if i < |rhs| then i else |rhs|])
    {
      ghost var b0 := borrow;
      var left := lhs[i];
      var rlimb: Word := if i < |rhs| then rhs[i] else 0;
      var right := rlimb + borrow;
      ghost var before := output[..i];
      if left >= right {
        output[i] := left - right;
        borrow := 0;
      } else {
        output[i] := BASE + left - right;
        borrow := 1;
      }
      assert output[..i + 1] == before + [output[i]];
      LeSnoc(before, output[i], BASE);
      LeTake(lhs, i, BASE);
      if i < |rhs| { LeTake(rhs, i, BASE); }
      BorrowStep(output[i], borrow, b0, left, rlimb, Pow(BASE, i));
    }
    assert lhs[..|lhs|] == lhs && rhs[..|rhs|] == rhs && output[..|lhs|] == output[..];
    out := output[..];
    ValBound(out);
    ValBound(lhs);
    ValBound(rhs);
    PowMonotone(BASE, |rhs|, |lhs|);
  }

  lemma BorrowStep(d: int, b: int, b0: int, l: int, r: int, p: int)
    requires d == l - r - b0 + b * BASE
    ensures d * p - b * (BASE * p) == l * p - r * p - b0 * p
  {
    assert b * (BASE * p) == (b * BASE) * p;
    assert d * p == l * p - r * p - b0 * p + (b * BASE) * p;
  }

  /** All limbs are zero exactly when the number is. */
  lemma {:induction false} ValIsZero(s: seq<Word>)
    ensures Val(s) == 0 <==> forall i :: 0 <= i < |s| ==> s[i] == 0
    decreases |s|
  {
    if |s| > 0 {
      ValIsZero(s[1..]);
      assert Val(s) == s[0] + BASE * Val(s[1..]);
      if Val(s) == 0 {
        forall i | 0 <= i < |s| ensures s[i] == 0 {
          if i > 0 { assert s[i] == s[1..][i - 1]; }
        }
      }
    }
  }

  lemma ValParity(s: seq<Word>)
    requires |s| > 0
    ensures Val(s) % 2 == s[0] % 2
  {
    assert Val(s) == s[0] + 2 * (0x8000_0000 * Val(s[1..]));
  }
}
