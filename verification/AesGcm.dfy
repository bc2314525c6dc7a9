/** AES in Galois/counter mode, `src/aes_gcm.cpp` (sections 6.2 to 7.2 of NIST SP 800-38D). */
module AesGcm {
  import opened AesBits
  import opened Aes
  import opened Gf128
  import opened Results
  import opened Chunks
  import ConstantTime
  import NumberTheory

  datatype AeadAlgorithm = Aes128Gcm | Aes192Gcm | Aes256Gcm

  function ExpectedKeySize(algorithm: AeadAlgorithm): nat {
    match algorithm
    case Aes128Gcm => 16
    case Aes192Gcm => 24
    case Aes256Gcm => 32
  }

  // ----- counters -----

  function IncByte(b: bv8): bv8 {
    b + 1
  }

  lemma IncByteValue(b: bv8)
    ensures IncByte(b) as int == if b as int == 255 then 0 else b as int + 1
    ensures IncByte(b) == 0 <==> b as int == 255
  {
  }

  function FourBytes(a: int, b: int, c: int, d: int): int {
    ((a * 256 + b) * 256 + c) * 256 + d
  }

  predicate IsByte(a: int) {
    0 <= a < 256
  }

  /** The last 32 bits as a number. */
  function Counter32(s: Block): int {
    FourBytes(s[12] as int, s[13] as int, s[14] as int, s[15] as int)
  }

  /** The bytes before `i` incremented from the end, for as long as they wrap to zero. */
  function IncFrom(s: Block, i: nat): Block
    requires 12 <= i <= 16
    decreases i
  {
    if i == 12 then s else
      var t := s[i - 1 := IncByte(s[i - 1])];
      if t[i - 1] != 0 then t else IncFrom(t, i - 1)
  }

  /** The counter block with its last 32 bits incremented. */
  function Inc32(s: Block): Block {
    IncFrom(s, 16)
  }

  method Inc32InPlace(counter: array<bv8>)
    requires counter.Length == 16
    modifies counter
    ensures counter[..] == Inc32(old(counter[..]))
  {
    hide IncByte;
    hide Inc32;
    ghost var s: Block := counter[..];
    assert Inc32(s) == IncFrom(s, 16) by { Inc32Is(s); }
    var i := 16;
    while i > 12
      invariant 12 <= i <= 16
      invariant Inc32(s) == IncFrom(counter[..], i)
      decreases i
    {
      ghost var before: Block := counter[..];
      var byte := IncByte(counter[i - 1]);
      counter[i - 1] := byte;
      assert counter[..] == before[i - 1 := byte];
      if counter[i - 1] != 0 {
        break;
      }
      i := i - 1;
    }
  }

  lemma Inc32Is(s: Block)
    ensures Inc32(s) == IncFrom(s, 16)
  {
  }

  lemma Increment(a: int, b: int, c: int, d: int)
    requires IsByte(a) && IsByte(b) && IsByte(c) && IsByte(d)
    ensures 0 <= FourBytes(a, b, c, d) < 0x1_0000_0000
    ensures (FourBytes(a, b, c, d) + 1) % 0x1_0000_0000
         == if d < 255 then FourBytes(a, b, c, d + 1)
            else if c < 255 then FourBytes(a, b, c + 1, 0)
            else if b < 255 then FourBytes(a, b + 1, 0, 0)
            else if a < 255 then FourBytes(a + 1, 0, 0, 0)
            else 0
  {
  }

  lemma FourBytesInjective(a: int, b: int, c: int, d: int, a': int, b': int, c': int, d': int)
    requires IsByte(a) && IsByte(b) && IsByte(c) && IsByte(d) && IsByte(a') && IsByte(b') && IsByte(c') && IsByte(d')
    requires FourBytes(a, b, c, d) == FourBytes(a', b', c', d')
    ensures a == a' && b == b' && c == c' && d == d'
  {
  }

  /** The four unfoldings of the loop. */
  lemma Inc32Cases(s: Block)
    ensures var t := Inc32(s);
            && t[..12] == s[..12]
            && (IncByte(s[15]) != 0 ==> t[12] == s[12] && t[13] == s[13] && t[14] == s[14] && t[15] == IncByte(s[15]))
            && (IncByte(s[15]) == 0 && IncByte(s[14]) != 0 ==>
                  t[12] == s[12] && t[13] == s[13] && t[14] == IncByte(s[14]) && t[15] == 0)
            && (IncByte(s[15]) == 0 && IncByte(s[14]) == 0 && IncByte(s[13]) != 0 ==>
                  t[12] == s[12] && t[13] == IncByte(s[13]) && t[14] == 0 && t[15] == 0)
            && (IncByte(s[15]) == 0 && IncByte(s[14]) == 0 && IncByte(s[13]) == 0 ==>
                  t[12] == IncByte(s[12]) && t[13] == 0 && t[14] == 0 && t[15] == 0)
  {
    hide IncByte;
    hide IncFrom;
    IncFromStep(s, 16);
    var s15: Block := s[15 := IncByte(s[15])];
    IncFromStep(s15, 15);
    var s14: Block := s15[14 := IncByte(s[14])];
    IncFromStep(s14, 14);
    var s13: Block := s14[13 := IncByte(s[13])];
    IncFromStep(s13, 13);
    IncFromStep(s13[12 := IncByte(s[12])], 12);
  }

  lemma IncFromStep(s: Block, i: nat)
    requires 12 <= i <= 16
    ensures IncFrom(s, i) == if i == 12 then s else
                               var t := s[i - 1 := IncByte(s[i - 1])];
                               if t[i - 1] != 0 then t else IncFrom(t, i - 1)
  {
    hide IncByte;
  }

  /** The same cases on numbers. */
  lemma Inc32Numbers(s: Block)
    ensures var t := Inc32(s);
            var (a, b, c, d) := (s[12] as int, s[13] as int, s[14] as int, s[15] as int);
            && (d < 255 ==> t[12] as int == a && t[13] as int == b && t[14] as int == c && t[15] as int == d + 1)
            && (d == 255 && c < 255 ==> t[12] as int == a && t[13] as int == b && t[14] as int == c + 1 && t[15] as int == 0)
            && (d == 255 && c == 255 && b < 255 ==>
                  t[12] as int == a && t[13] as int == b + 1 && t[14] as int == 0 && t[15] as int == 0)
            && (d == 255 && c == 255 && b == 255 ==>
                  t[12] as int == (if a == 255 then 0 else a + 1) && t[13] as int == 0 && t[14] as int == 0 && t[15] as int == 0)
  {
    hide *;
    Inc32Cases(s);
    IncByteValue(s[15]);
    IncByteValue(s[14]);
    IncByteValue(s[13]);
    IncByteValue(s[12]);
  }

  lemma Inc32Value(s: Block)
    ensures Counter32(Inc32(s)) == (Counter32(s) + 1) % 0x1_0000_0000
    ensures Inc32(s)[..12] == s[..12]
  {
    hide *;
    var t := Inc32(s);
    Inc32Cases(s);
    Inc32Numbers(s);
    ByteRanges(s);
    Increment(s[12] as int, s[13] as int, s[14] as int, s[15] as int);
    CounterIs(s);
    CounterIs(t);
    ZeroBytes();
  }

  lemma CounterIs(s: Block)
    ensures Counter32(s) == FourBytes(s[12] as int, s[13] as int, s[14] as int, s[15] as int)
  {
  }

  lemma ByteRanges(s: Block)
    ensures IsByte(s[12] as int) && IsByte(s[13] as int) && IsByte(s[14] as int) && IsByte(s[15] as int)
    ensures s[12] as int <= 255 && s[13] as int <= 255 && s[14] as int <= 255 && s[15] as int <= 255
  {
    ByteRange(s[12]);
    ByteRange(s[13]);
    ByteRange(s[14]);
    ByteRange(s[15]);
  }

  lemma ZeroBytes()
    ensures (0 as bv8) as int == 0 && FourBytes(0, 0, 0, 0) == 0
  {
  }

  function CounterAt(j0: Block, i: nat): Block {
    if i == 0 then j0 else Inc32(CounterAt(j0, i - 1))
  }

  lemma {:induction false} CounterAtValue(j0: Block, i: nat)
    ensures Counter32(CounterAt(j0, i)) == (Counter32(j0) + i) % 0x1_0000_0000
    ensures CounterAt(j0, i)[..12] == j0[..12]
    decreases i
  {
    hide Inc32;
    hide Counter32;
    if i > 0 {
      CounterAtValue(j0, i - 1);
      Inc32Value(CounterAt(j0, i - 1));
    } else {
      Counter32Bound(j0);
    }
  }

  lemma Counter32Bound(s: Block)
    ensures 0 <= Counter32(s) < 0x1_0000_0000
  {
    ByteRange(s[12]);
    ByteRange(s[13]);
    ByteRange(s[14]);
    ByteRange(s[15]);
    Increment(s[12] as int, s[13] as int, s[14] as int, s[15] as int);
  }

  /** Two counters agree exactly when their positions agree modulo 2^32; in particular J0 and the
      counters of up to 2^32 - 1 blocks are pairwise different. */
  lemma CountersDistinct(j0: Block, i: nat, k: nat)
    ensures CounterAt(j0, i) == CounterAt(j0, k) <==> i % 0x1_0000_0000 == k % 0x1_0000_0000
    ensures i < k < 0x1_0000_0000 ==> CounterAt(j0, i) != CounterAt(j0, k)
  {
    hide *;
    CounterAtValue(j0, i);
    CounterAtValue(j0, k);
    Counter32Bytes(CounterAt(j0, i), CounterAt(j0, k));
    SameOffset(Counter32(j0), i, k);
  }

  lemma SameOffset(c: int, i: nat, k: nat)
    ensures (c + i) % 0x1_0000_0000 == (c + k) % 0x1_0000_0000 <==> i % 0x1_0000_0000 == k % 0x1_0000_0000
    ensures i < k < 0x1_0000_0000 ==> i % 0x1_0000_0000 != k % 0x1_0000_0000
  {
  }

  lemma Counter32Bytes(s: Block, t: Block)
    requires s[..12] == t[..12]
    ensures Counter32(s) == Counter32(t) <==> s == t
  {
    if Counter32(s) == Counter32(t) {
      ByteRange(s[12]);
      ByteRange(s[13]);
      ByteRange(s[14]);
      ByteRange(s[15]);
      ByteRange(t[12]);
      ByteRange(t[13]);
      ByteRange(t[14]);
      ByteRange(t[15]);
      FourBytesInjective(s[12] as int, s[13] as int, s[14] as int, s[15] as int,
                         t[12] as int, t[13] as int, t[14] as int, t[15] as int);
      hide *;
      ByteEqual(s[12], t[12]);
      ByteEqual(s[13], t[13]);
      ByteEqual(s[14], t[14]);
      ByteEqual(s[15], t[15]);
      SplitTail(s);
      SplitTail(t);
    }
  }

  lemma SplitTail(s: Block)
    ensures s == s[..12] + [s[12], s[13], s[14], s[15]]
  {
  }

  // ----- counter mode -----

  function XorPrefix(a: Bytes, b: Block): (r: Bytes)
    requires |a| <= 16
    ensures |r| == |a|
  {
    seq(|a|, i requires 0 <= i < |a| <= 16 => Add(a[i], b[i]))
  }

  function Take(n: nat): (take: nat)
    ensures take <= n && take <= 16 && (n > 0 ==> take > 0)
  {
    if n < 16 then n else 16
  }

  function Gctr(cipher: AesBlockCipher, counter: Block, input: Bytes): (output: Bytes)
    requires cipher.Valid()
    ensures |output| == |input|
    decreases |input|
  {
    hide *;
    if |input| == 0 then [] else
      var take := Take(|input|);
      XorPrefix(input[..take], Encrypt(cipher, counter)) + Gctr(cipher, Inc32(counter), input[take..])
  }

  lemma GctrStep(cipher: AesBlockCipher, counter: Block, input: Bytes)
    requires cipher.Valid()
    ensures |input| == 0 ==> Gctr(cipher, counter, input) == []
    ensures |input| > 0 ==>
              var take := Take(|input|);
              Gctr(cipher, counter, input)
                == XorPrefix(input[..take], Encrypt(cipher, counter)) + Gctr(cipher, Inc32(counter), input[take..])
  {
    hide XorPrefix;
    hide Encrypt;
    hide Inc32;
    hide AesBlockCipher.Valid;
  }

  lemma XorPrefixTwice(a: Bytes, b: Block)
    requires |a| <= 16
    ensures XorPrefix(XorPrefix(a, b), b) == a
  {
    hide Add;
    forall i | 0 <= i < |a|
      ensures Add(Add(a[i], b[i]), b[i]) == a[i]
    {
      AddTwice(a[i], b[i]);
    }
  }

  /** The same key stream again removes it. */
  lemma {:induction false} GctrTwice(cipher: AesBlockCipher, counter: Block, input: Bytes)
    requires cipher.Valid()
    ensures Gctr(cipher, counter, Gctr(cipher, counter, input)) == input
    decreases |input|
  {
    hide *;
    var output := Gctr(cipher, counter, input);
    GctrStep(cipher, counter, input);
    GctrStep(cipher, counter, output);
    if |input| > 0 {
      var take := Take(|input|);
      var head, tail := XorPrefix(input[..take], Encrypt(cipher, counter)), Gctr(cipher, Inc32(counter), input[take..]);
      assert output[..take] == head && output[take..] == tail;
      XorPrefixTwice(input[..take], Encrypt(cipher, counter));
      GctrTwice(cipher, Inc32(counter), input[take..]);
      assert input == input[..take] + input[take..];
    }
  }

  method XorPrefixOf(input: Bytes, block: Block) returns (r: Bytes)
    requires |input| <= 16
    ensures r == XorPrefix(input, block)
  {
    hide Add;
    var output := new bv8[|input|](_ => 0);
    for i := 0 to |input|
      invariant forall k :: 0 <= k < i ==> output[k] == Add(input[k], block[k])
    {
      output[i] := Add(input[i], block[i]);
    }
    r := output[..];
  }

  method GctrBytes(cipher: AesBlockCipher, initial: Block, input: Bytes) returns (output: Bytes)
    requires cipher.Valid()
    ensures output == Gctr(cipher, initial, input)
  {
    hide *;
    output := [];
    var counter := CopyBlock(initial);
    var rest := input;
    while |rest| > 0
      invariant fresh(counter) && counter.Length == 16
      invariant Gctr(cipher, initial, input) == output + Gctr(cipher, counter[..], rest)
      decreases |rest|
    {
      GctrStep(cipher, counter[..], rest);
      var encrypted := EncryptBlock(cipher, counter[..]);
      var take := Take(|rest|);
      var part := XorPrefixOf(rest[..take], encrypted.value);
      output := output + part;
      rest := rest[take..];
      Inc32InPlace(counter);
    }
    GctrStep(cipher, counter[..], rest);
  }

  /** Byte k of the key stream is byte k mod 16 of the encryption of counter k / 16. */
  lemma {:induction false} GctrByte(cipher: AesBlockCipher, j0: Block, first: nat, input: Bytes, k: nat)
    requires cipher.Valid() && k < |input|
    ensures Gctr(cipher, CounterAt(j0, first), input)[k] == Add(input[k], Encrypt(cipher, CounterAt(j0, first + k / 16))[k % 16])
    decreases k
  {
    hide *;
    TakeIs(|input|);
    GctrStep(cipher, CounterAt(j0, first), input);
    CounterStep(j0, first);
    if k < 16 {
      XorPrefixByte(input[..Take(|input|)], Encrypt(cipher, CounterAt(j0, first)), k);
    } else {
      GctrByte(cipher, j0, first + 1, input[16..], k - 16);
      assert (k - 16) / 16 == k / 16 - 1 && (k - 16) % 16 == k % 16;
    }
  }

  lemma XorPrefixByte(a: Bytes, b: Block, k: nat)
    requires k < |a| <= 16
    ensures XorPrefix(a, b)[k] == Add(a[k], b[k])
  {
    hide Add;
  }

  lemma TakeIs(n: nat)
    ensures Take(n) == if n < 16 then n else 16
  {
  }

  lemma CounterStep(j0: Block, i: nat)
    ensures CounterAt(j0, i + 1) == Inc32(CounterAt(j0, i)) && CounterAt(j0, 0) == j0
  {
    hide Inc32;
  }

  // ----- GHASH -----

  /** A piece of at most 16 bytes, filled up with zeros. */
  function PadBlock(piece: Bytes): Block
    requires |piece| <= 16
  {
    piece + seq(16 - |piece|, _ => 0)
  }

  function GhashUpdate(y: Block, h: Block, input: Bytes): Block
    decreases |input|
  {
    hide *;
    if |input| == 0 then y else
      var take := Take(|input|);
      GhashUpdate(GfProduct(XorBlock(y, PadBlock(input[..take])), h), h, input[take..])
  }

  lemma GhashStep(y: Block, h: Block, input: Bytes)
    ensures |input| == 0 ==> GhashUpdate(y, h, input) == y
    ensures |input| > 0 ==>
              var take := Take(|input|);
              GhashUpdate(y, h, input) == GhashUpdate(GfProduct(XorBlock(y, PadBlock(input[..take])), h), h, input[take..])
  {
    hide GfProduct;
    hide XorBlock;
    hide PadBlock;
  }

  /** Both bit lengths, as 64-bit numbers. */
  function Lengths(aadSize: nat, ciphertextSize: nat): Block {
    BeBytes(8 * aadSize % 0x1_0000_0000_0000_0000, 8) + BeBytes(8 * ciphertextSize % 0x1_0000_0000_0000_0000, 8)
  }

  /** The block as a number: the bit length of the data in the upper half, that of the text in the lower. */
  lemma LengthsValue(aadSize: nat, ciphertextSize: nat)
    ensures BeNumber(Lengths(aadSize, ciphertextSize))
         == (8 * aadSize % 0x1_0000_0000_0000_0000) * 0x1_0000_0000_0000_0000 + 8 * ciphertextSize % 0x1_0000_0000_0000_0000
  {
    var high, low := 8 * aadSize % 0x1_0000_0000_0000_0000, 8 * ciphertextSize % 0x1_0000_0000_0000_0000;
    hide BeNumber;
    hide BeBytes;
    EightBytes();
    hide NumberTheory.Pow;
    BeNumberOfBytes(high, 8);
    BeNumberOfBytes(low, 8);
    NumberTheory.ModSmall(high, 0x1_0000_0000_0000_0000);
    NumberTheory.ModSmall(low, 0x1_0000_0000_0000_0000);
    BeNumberConcat(BeBytes(high, 8), BeBytes(low, 8));
  }

  lemma EightBytes()
    ensures NumberTheory.Pow(256, 8) == 0x1_0000_0000_0000_0000
  {
    NumberTheory.PowAdd(256, 4, 4);
    assert NumberTheory.Pow(256, 4) == 0x1_0000_0000;
  }

  function Ghash(h: Block, aad: Bytes, ciphertext: Bytes): Block {
    var y := GhashUpdate(GhashUpdate(ZeroBlock(), h, aad), h, ciphertext);
    GfProduct(XorBlock(y, Lengths(|aad|, |ciphertext|)), h)
  }

  /** Absorbing one more block: add it, multiply by H (section 6.4 of NIST SP 800-38D). */
  lemma GhashBlock(y: Block, h: Block, input: Bytes, block: Block)
    requires |input| % 16 == 0
    ensures GhashUpdate(y, h, []) == y
    ensures GhashUpdate(y, h, input + block) == GfProduct(XorBlock(GhashUpdate(y, h, input), block), h)
  {
    hide *;
    GhashStep(y, h, []);
    GhashConcat(y, h, input, block);
    var before := GhashUpdate(y, h, input);
    GhashStep(before, h, block);
    TakeIs(16);
    BlockIsPadded(block);
    assert block[..16] == block && block[16..] == [];
    GhashStep(GfProduct(XorBlock(before, block), h), h, []);
  }

  function PadCount(n: nat): nat {
    (16 - n % 16) % 16
  }

  /** Zeros up to a multiple of 16 bytes. */
  function PadTo16(s: Bytes): Bytes {
    s + seq(PadCount(|s|), _ => 0)
  }

  lemma PadCounts(n: nat)
    ensures (n + PadCount(n)) % 16 == 0 && (n % 16 == 0 ==> PadCount(n) == 0)
    ensures n >= 16 ==> PadCount(n) == PadCount(n - 16)
    ensures 0 < n < 16 ==> PadCount(n) == 16 - n
  {
  }

  lemma PadShape(s: Bytes)
    ensures |PadTo16(s)| % 16 == 0 && (|s| % 16 == 0 ==> PadTo16(s) == s)
    ensures |s| >= 16 ==>
              |PadTo16(s)| >= 16 && PadTo16(s)[..16] == s[..16] && PadTo16(s)[16..] == PadTo16(s[16..])
    ensures 0 < |s| < 16 ==> |PadTo16(s)| == 16 && PadTo16(s) == PadBlock(s)
  {
    PadCounts(|s|);
    hide PadCount;
  }

  /** Fewer than sixteen bytes are added, all of them zero. */
  lemma PaddingIsZeros(s: Bytes)
    ensures var p := PadTo16(s);
            |p| % 16 == 0 && 0 <= |p| - |s| < 16 && p[..|s|] == s && forall i :: |s| <= i < |p| ==> p[i] == 0
  {
    PadCounts(|s|);
  }

  lemma {:induction false} GhashOfPadded(y: Block, h: Block, input: Bytes)
    ensures GhashUpdate(y, h, PadTo16(input)) == GhashUpdate(y, h, input)
    decreases |input|
  {
    hide *;
    var padded := PadTo16(input);
    PadShape(input);
    GhashStep(y, h, input);
    GhashStep(y, h, padded);
    TakeIs(|input|);
    TakeIs(|padded|);
    if |input| >= 16 {
      GhashOfPadded(GfProduct(XorBlock(y, PadBlock(input[..16])), h), h, input[16..]);
    } else if |input| > 0 {
      BlockIsPadded(padded);
      assert input[..|input|] == input && input[|input|..] == [] && padded[..16] == padded && padded[16..] == [];
      GhashStep(GfProduct(XorBlock(y, padded), h), h, []);
    }
  }

  lemma BlockIsPadded(s: Block)
    ensures PadBlock(s) == s
  {
  }

  lemma {:induction false} GhashConcat(y: Block, h: Block, a: Bytes, b: Bytes)
    requires |a| % 16 == 0
    ensures GhashUpdate(y, h, a + b) == GhashUpdate(GhashUpdate(y, h, a), h, b)
    decreases |a|
  {
    hide *;
    GhashStep(y, h, a);
    GhashStep(y, h, a + b);
    TakeIs(|a|);
    TakeIs(|a + b|);
    if |a| == 0 {
      assert a + b == b;
    } else {
      assert |a| >= 16;
      assert (a + b)[..16] == a[..16] && (a + b)[16..] == a[16..] + b;
      GhashConcat(GfProduct(XorBlock(y, PadBlock(a[..16])), h), h, a[16..], b);
    }
  }

  /** The tag input of section 7.1: A || 0* || C || 0* || [len(A)] || [len(C)], hashed block by block. */
  lemma GhashIsStandard(h: Block, aad: Bytes, ciphertext: Bytes)
    ensures Ghash(h, aad, ciphertext)
         == GhashUpdate(ZeroBlock(), h, PadTo16(aad) + PadTo16(ciphertext) + Lengths(|aad|, |ciphertext|))
  {
    hide *;
    var zero, lengths := ZeroBlock(), Lengths(|aad|, |ciphertext|);
    GhashOfPadded(zero, h, aad);
    PadShape(aad);
    GhashConcat(zero, h, PadTo16(aad), PadTo16(ciphertext));
    var y := GhashUpdate(zero, h, aad);
    GhashOfPadded(y, h, ciphertext);
    PadShape(ciphertext);
    GhashConcat(zero, h, PadTo16(aad) + PadTo16(ciphertext), lengths);
    var y2 := GhashUpdate(y, h, ciphertext);
    GhashStep(y2, h, lengths);
    TakeIs(16);
    assert lengths[..16] == lengths && lengths[16..] == [];
    BlockIsPadded(lengths);
    GhashStep(GfProduct(XorBlock(y2, lengths), h), h, []);
    GhashIs(h, aad, ciphertext);
  }

  lemma GhashIs(h: Block, aad: Bytes, ciphertext: Bytes)
    ensures var y := GhashUpdate(GhashUpdate(ZeroBlock(), h, aad), h, ciphertext);
            Ghash(h, aad, ciphertext) == GfProduct(XorBlock(y, Lengths(|aad|, |ciphertext|)), h)
  {
    hide GhashUpdate;
    hide GfProduct;
    hide XorBlock;
    hide Lengths;
    hide ZeroBlock;
  }

  /** Absorbs the input into y, sixteen bytes at a time. */
  method GhashUpdateBytes(initial: Block, h: Block, input: Bytes) returns (y: Block)
    ensures y == GhashUpdate(initial, h, input)
  {
    hide *;
    y := initial;
    var rest := input;
    while |rest| > 0
      invariant GhashUpdate(initial, h, input) == GhashUpdate(y, h, rest)
      decreases |rest|
    {
      GhashStep(y, h, rest);
      var take := Take(|rest|);
      var accumulator := CopyBlock(y);
      XorInto(accumulator, PadBlock(rest[..take]));
      y := GfMultiply(accumulator[..], h);
      rest := rest[take..];
    }
    GhashStep(y, h, rest);
  }

  method GhashBytes(h: Block, aad: Bytes, ciphertext: Bytes) returns (r: Block)
    ensures r == Ghash(h, aad, ciphertext)
  {
    hide *;
    var y := GhashUpdateBytes(ZeroBlock(), h, aad);
    y := GhashUpdateBytes(y, h, ciphertext);
    var accumulator := CopyBlock(y);
    XorInto(accumulator, Lengths(|aad|, |ciphertext|));
    r := GfMultiply(accumulator[..], h);
    GhashIs(h, aad, ciphertext);
  }

  // ----- authenticated encryption -----

  /** J0: the nonce with a counter of one, or its hash when it is not 96 bits long. */
  function J0(h: Block, nonce: Bytes): Block {
    if |nonce| == 12 then nonce + [0, 0, 0, 1] else Ghash(h, [], nonce)
  }

  method MakeJ0(h: Block, nonce: Bytes) returns (j0: Block)
    ensures j0 == J0(h, nonce)
    ensures |nonce| == 12 ==> j0[..12] == nonce && Counter32(j0) == 1
    ensures |nonce| != 12 ==> j0 == GhashUpdate(ZeroBlock(), h, PadTo16(nonce) + Lengths(0, |nonce|))
  {
    NonceBlock(h, nonce);
    NoAad(h, nonce);
    hide *;
    if |nonce| == 12 {
      return nonce + [0, 0, 0, 1];
    }
    j0 := GhashBytes(h, [], nonce);
  }

  lemma NonceBlock(h: Block, nonce: Bytes)
    ensures |nonce| == 12 ==> J0(h, nonce) == nonce + [0, 0, 0, 1] && J0(h, nonce)[..12] == nonce && Counter32(J0(h, nonce)) == 1
    ensures |nonce| != 12 ==> J0(h, nonce) == Ghash(h, [], nonce)
  {
    hide Ghash;
  }

  lemma NoAad(h: Block, nonce: Bytes)
    ensures Ghash(h, [], nonce) == GhashUpdate(ZeroBlock(), h, PadTo16(nonce) + Lengths(0, |nonce|))
  {
    PadShape([]);
    hide *;
    GhashIsStandard(h, [], nonce);
    assert PadTo16([]) + PadTo16(nonce) == PadTo16(nonce);
  }

  datatype AeadParams = AeadParams(algorithm: AeadAlgorithm, key: Bytes, nonce: Bytes, aad: Bytes)

  datatype AeadOutput = AeadOutput(ciphertext: Bytes, tag: Bytes)

  /** Why parameters are refused, if they are. */
  function Refusal(params: AeadParams, tagSize: nat): Result<()> {
    if |params.key| != ExpectedKeySize(params.algorithm) then Err(InvalidKey)
    else if |params.nonce| == 0 then Err(InvalidArgument)
    else if tagSize < 12 || tagSize > 16 then Err(InvalidArgument)
    else Ok(())
  }

  /** Refused in this order: a key of the wrong size, no nonce, a tag below 12 or above 16 bytes. */
  lemma RefusalCases(params: AeadParams, tagSize: nat)
    ensures var keySize := match params.algorithm { case Aes128Gcm => 16 case Aes192Gcm => 24 case Aes256Gcm => 32 };
            && (|params.key| != keySize ==> Refusal(params, tagSize) == Err(InvalidKey))
            && (|params.key| == keySize && (params.nonce == [] || !(12 <= tagSize <= 16)) ==>
                  Refusal(params, tagSize) == Err(InvalidArgument))
            && (|params.key| == keySize && params.nonce != [] && 12 <= tagSize <= 16 ==> Refusal(params, tagSize) == Ok(()))
  {
  }

  /** The cipher of the parameters' key. */
  function CipherOf(params: AeadParams): (cipher: AesBlockCipher)
    requires IsKeySize(|params.key|)
    ensures cipher.Valid()
  {
    hide ScheduleWord;
    Expanded(params.key)
  }

  function TagBlock(params: AeadParams, ciphertext: Bytes): Block
    requires IsKeySize(|params.key|)
  {
    hide *;
    var cipher := CipherOf(params);
    var h := Encrypt(cipher, ZeroBlock());
    XorBlock(Ghash(h, params.aad, ciphertext), Encrypt(cipher, J0(h, params.nonce)))
  }

  /** The key stream that starts one after J0, applied. */
  function Stream(params: AeadParams, input: Bytes): (output: Bytes)
    requires IsKeySize(|params.key|)
    ensures |output| == |input|
  {
    hide *;
    var cipher := CipherOf(params);
    Gctr(cipher, Inc32(J0(Encrypt(cipher, ZeroBlock()), params.nonce)), input)
  }

  method ComputeTagBlock(cipher: AesBlockCipher, h: Block, j0: Block, aad: Bytes, ciphertext: Bytes) returns (s: Block)
    requires cipher.Valid()
    ensures s == XorBlock(Ghash(h, aad, ciphertext), Encrypt(cipher, j0))
  {
    hide *;
    var hash := GhashBytes(h, aad, ciphertext);
    var encryptedJ0 := EncryptBlock(cipher, j0);
    var accumulator := CopyBlock(hash);
    XorInto(accumulator, encryptedJ0.value);
    s := accumulator[..];
  }

  /** Applies the key stream that starts one after J0. */
  method StreamBytes(cipher: AesBlockCipher, j0: Block, input: Bytes) returns (output: Bytes)
    requires cipher.Valid()
    ensures output == Gctr(cipher, Inc32(j0), input)
  {
    hide *;
    var counter := CopyBlock(j0);
    Inc32InPlace(counter);
    output := GctrBytes(cipher, counter[..], input);
  }

  method AesGcmEncrypt(params: AeadParams, tagSize: nat, plaintext: Bytes) returns (r: Result<AeadOutput>)
    ensures Refusal(params, tagSize).Err? ==> r == Err(Refusal(params, tagSize).error)
    ensures Refusal(params, tagSize).Ok? ==> IsKeySize(|params.key|) && tagSize <= 16
    ensures Refusal(params, tagSize).Ok? ==>
              var ciphertext := Stream(params, plaintext);
              r == Ok(AeadOutput(ciphertext, TagBlock(params, ciphertext)[..tagSize]))
  {
    hide *;
    var validation := Refusal(params, tagSize);
    if validation.Err? {
      return Err(validation.error);
    }
    KeySizes(params, tagSize);
    var created := Create(params.key);
    var cipher := created.value;
    var h := EncryptBlock(cipher, ZeroBlock());
    var j0 := MakeJ0(h.value, params.nonce);
    var ciphertext := StreamBytes(cipher, j0, plaintext);
    var tagBlock := ComputeTagBlock(cipher, h.value, j0, params.aad, ciphertext);
    Definitions(params, plaintext, ciphertext);
    r := Ok(AeadOutput(ciphertext, tagBlock[..tagSize]));
  }

  lemma KeySizes(params: AeadParams, tagSize: nat)
    requires Refusal(params, tagSize).Ok?
    ensures IsKeySize(|params.key|) && 12 <= tagSize <= 16
  {
  }

  lemma Definitions(params: AeadParams, input: Bytes, ciphertext: Bytes)
    requires IsKeySize(|params.key|)
    ensures var cipher := Expanded(params.key);
            cipher.Valid() &&
            var h := Encrypt(cipher, ZeroBlock());
            && Stream(params, input) == Gctr(cipher, Inc32(J0(h, params.nonce)), input)
            && TagBlock(params, ciphertext) == XorBlock(Ghash(h, params.aad, ciphertext), Encrypt(cipher, J0(h, params.nonce)))
  {
    hide Encrypt;
    hide Gctr;
    hide Inc32;
    hide J0;
    hide Ghash;
    hide XorBlock;
    hide ZeroBlock;
    hide ScheduleWord;
  }

  /** Refuses wrong parameters, then any tag but the expected one; otherwise removes the key stream. */
  method AesGcmDecrypt(params: AeadParams, tag: Bytes, ciphertext: Bytes) returns (r: Result<Bytes>)
    ensures Refusal(params, |tag|).Err? ==> r == Err(Refusal(params, |tag|).error)
    ensures Refusal(params, |tag|).Ok? ==> IsKeySize(|params.key|) && |tag| <= 16
    ensures Refusal(params, |tag|).Ok? ==>
              r == if tag == TagBlock(params, ciphertext)[..|tag|] then Ok(Stream(params, ciphertext)) else Err(AuthenticationFailed)
  {
    hide *;
    var validation := Refusal(params, |tag|);
    if validation.Err? {
      return Err(validation.error);
    }
    KeySizes(params, |tag|);
    var created := Create(params.key);
    var cipher := created.value;
    var h := EncryptBlock(cipher, ZeroBlock());
    var j0 := MakeJ0(h.value, params.nonce);
    var tagBlock := ComputeTagBlock(cipher, h.value, j0, params.aad, ciphertext);
    Definitions(params, ciphertext, ciphertext);
    var same := ConstantTime.Equal(tagBlock[..|tag|], tag);
    if !same {
      return Err(AuthenticationFailed);
    }
    var plaintext := StreamBytes(cipher, j0, ciphertext);
    r := Ok(plaintext);
  }

  lemma StreamTwice(params: AeadParams, input: Bytes)
    requires IsKeySize(|params.key|)
    ensures Stream(params, Stream(params, input)) == input
  {
    hide *;
    Definitions(params, input, input);
    Definitions(params, Stream(params, input), input);
    var cipher := Expanded(params.key);
    GctrTwice(cipher, Inc32(J0(Encrypt(cipher, ZeroBlock()), params.nonce)), input);
  }

  /** Decryption returns the plaintext on every output of encryption. */
  method EncryptThenDecrypt(params: AeadParams, tagSize: nat, plaintext: Bytes) returns (r: Result<Bytes>)
    ensures r == if Refusal(params, tagSize).Ok? then Ok(plaintext) else Err(Refusal(params, tagSize).error)
  {
    hide *;
    var output := AesGcmEncrypt(params, tagSize, plaintext);
    if output.Err? {
      return Err(output.error);
    }
    StreamTwice(params, plaintext);
    assert output.value.tag == TagBlock(params, output.value.ciphertext)[..tagSize];
    r := AesGcmDecrypt(params, output.value.tag, output.value.ciphertext);
  }

  /** No block of a message of at most 2^32 - 1 blocks is masked with the block that masks the tag, or
      with the block of another position: the counters used are J0 + 1, J0 + 2, ..., all different. */
  lemma MaskCountersDistinct(j0: Block, message: Bytes, k: nat, l: nat)
    requires k < |message| && l < |message| && |message| <= 16 * 0xFFFF_FFFF
    ensures CounterAt(j0, 1 + k / 16) != CounterAt(j0, 0)
    ensures k / 16 != l / 16 ==> CounterAt(j0, 1 + k / 16) != CounterAt(j0, 1 + l / 16)
  {
    hide *;
    CountersDistinct(j0, 0, 1 + k / 16);
    CountersDistinct(j0, 1 + k / 16, 1 + l / 16);
    CountersDistinct(j0, 1 + l / 16, 1 + k / 16);
  }
}
