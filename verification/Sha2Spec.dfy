/** SHA-256 and SHA-512 over an arbitrary compression function: padding and iteration
    (sections 5.1, 5.3, 6.2 and 6.4 of FIPS 180-4). */
module Sha2Spec {
  import opened NumberTheory
  import opened Chunks

  type Bytes = seq<bv8>

  /** The eight chaining words. */
  type Words = seq<nat>

  const SHA256_INITIAL: Words := [
    0x6a09e667, 0xbb67ae85, 0x3c6ef372, 0xa54ff53a, 0x510e527f, 0x9b05688c, 0x1f83d9ab, 0x5be0cd19]

  const SHA512_INITIAL: Words := [
    0x6a09e667f3bcc908, 0xbb67ae8584caa73b, 0x3c6ef372fe94f82b, 0xa54ff53a5f1d36f1,
    0x510e527fade682d1, 0x9b05688c2b3e6c1f, 0x1f83d9abfb41bd6b, 0x5be0cd19137e2179]

  datatype Algorithm = Sha256 | Sha512

  /** A hash function: its size and what one block does to the chaining words. */
  datatype Sha = Sha(algorithm: Algorithm, compress: (Words, Bytes) -> Words) {
    function WordSize(): nat { if algorithm == Sha256 then 4 else 8 }

    function BlockSize(): (size: nat)
      ensures size == 64 || size == 128
    {
      16 * WordSize()
    }

    /** The bytes of the length field at the end of the padding. */
    function LengthSize(): (size: nat)
      ensures size == 8 || size == 16
    {
      2 * WordSize()
    }

    function Initial(): (words: Words)
      ensures |words| == 8
    {
      if algorithm == Sha256 then SHA256_INITIAL else SHA512_INITIAL
    }

    /** The compression function returns eight words. */
    ghost predicate KeepsWords() {
      forall words, block :: |compress(words, block)| == 8
    }
  }

  /** The compression function over whole blocks, from the front. */
  function Fold(sha: Sha, words: Words, blocks: Bytes): Words
    requires |blocks| % sha.BlockSize() == 0
    decreases |blocks|
  {
    if blocks == [] then words else
      var size := sha.BlockSize();
      WholeBlock(|blocks|, size);
      Fold(sha, sha.compress(words, blocks[..size]), blocks[size..])
  }

  lemma WholeBlock(n: nat, size: nat)
    requires size > 0 && n > 0 && n % size == 0
    ensures n >= size && (n - size) % size == 0
  {
    if n < size {
      ModSmall(n, size);
    } else {
      ModAddMultiple(n, -1, size);
    }
  }

  lemma {:induction false} FoldSnoc(sha: Sha, words: Words, blocks: Bytes, block: Bytes)
    requires |blocks| % sha.BlockSize() == 0 && |block| == sha.BlockSize()
    ensures |blocks + block| % sha.BlockSize() == 0
    ensures Fold(sha, words, blocks + block) == sha.compress(Fold(sha, words, blocks), block)
    decreases |blocks|
  {
    var size := sha.BlockSize();
    ModAddMultiple(|blocks|, 1, size);
    if blocks == [] {
      assert [] + block == block && block[..size] == block && block[size..] == [];
    } else {
      WholeBlock(|blocks|, size);
      assert (blocks + block)[..size] == blocks[..size] && (blocks + block)[size..] == blocks[size..] + block;
      FoldSnoc(sha, sha.compress(words, blocks[..size]), blocks[size..], block);
    }
  }

  lemma {:induction false} FoldKeepsWords(sha: Sha, words: Words, blocks: Bytes)
    requires |blocks| % sha.BlockSize() == 0 && sha.KeepsWords() && |words| == 8
    ensures |Fold(sha, words, blocks)| == 8
    decreases |blocks|
  {
    if blocks != [] {
      WholeBlock(|blocks|, sha.BlockSize());
      FoldKeepsWords(sha, sha.compress(words, blocks[..sha.BlockSize()]), blocks[sha.BlockSize()..]);
    }
  }

  // ----- padding -----

  /** The least number of zero bytes that makes 1 + zeros + length field end on a block boundary. */
  function ZeroCount(sha: Sha, n: nat): nat {
    (sha.BlockSize() - (n + 1 + sha.LengthSize()) % sha.BlockSize()) % sha.BlockSize()
  }

  /** One set bit, zeros, and the length in bits modulo 2^64 or 2^128. */
  function Padding(sha: Sha, n: nat): Bytes {
    [0x80] + Zeros(ZeroCount(sha, n)) + LengthField(sha, n)
  }

  function LengthField(sha: Sha, n: nat): (s: Bytes)
    ensures |s| == sha.LengthSize()
  {
    BeBytes(8 * n, sha.LengthSize())
  }

  function Digest(words: Words, wordSize: nat): Bytes {
    if words == [] then [] else Digest(words[..|words| - 1], wordSize) + BeBytes(words[|words| - 1], wordSize)
  }

  lemma {:induction false} DigestSize(words: Words, wordSize: nat)
    ensures |Digest(words, wordSize)| == |words| * wordSize
    decreases |words|
  {
    if words != [] {
      DigestSize(words[..|words| - 1], wordSize);
      assert (|words| - 1) * wordSize + wordSize == |words| * wordSize;
    }
  }

  /** The padding completes the last block. */
  lemma PaddedSize(sha: Sha, n: nat)
    ensures (n + |Padding(sha, n)|) % sha.BlockSize() == 0
  {
    hide BeBytes;
    hide Zeros;
    var total, size := n + 1 + sha.LengthSize(), sha.BlockSize();
    ZeroCountCompletes(total, size);
    assert n + |Padding(sha, n)| == total + ZeroCount(sha, n);
  }

  lemma ZeroCountCompletes(total: nat, size: nat)
    requires size > 0
    ensures (total + (size - total % size) % size) % size == 0
  {
    var r := total % size;
    ModSmall(0, size);
    if r == 0 {
      ModAddMultiple(0, 1, size);
    } else {
      ModSmall(size - r, size);
      ModMultiple(total / size + 1, size);
      assert total + (size - r) == (total / size + 1) * size by {
        assert total == (total / size) * size + r;
      }
    }
  }

  /** The padding byte by byte (section 5.1 of FIPS 180-4): 0x80, fewer zeros than a block has bytes, and the
      length in bits as a big-endian number. */
  lemma PaddingBytes(sha: Sha, n: nat)
    ensures var p, fieldSize := Padding(sha, n), if sha.algorithm == Sha256 then 8 else 16;
            var zeros := |p| - fieldSize - 1;
            && 0 <= zeros < (if sha.algorithm == Sha256 then 64 else 128)
            && p[0] == 0x80 && (forall i :: 1 <= i <= zeros ==> p[i] == 0)
            && Pow(256, fieldSize) > 0 && BeNumber(p[zeros + 1..]) == 8 * n % Pow(256, fieldSize)
  {
    hide BeBytes;
    hide BeNumber;
    hide Pow;
    BeNumberOfBytes(8 * n, sha.LengthSize());
    var p := Padding(sha, n);
    assert p[ZeroCount(sha, n) + 1..] == LengthField(sha, n);
  }

  /** The hash of a message. */
  function Hash(sha: Sha, message: Bytes): Bytes {
    PaddedSize(sha, |message|);
    Digest(Fold(sha, sha.Initial(), message + Padding(sha, |message|)), sha.WordSize())
  }

  lemma HashSize(sha: Sha, message: Bytes)
    requires sha.KeepsWords()
    ensures |Hash(sha, message)| == 8 * sha.WordSize()
  {
    PaddedSize(sha, |message|);
    FoldKeepsWords(sha, sha.Initial(), message + Padding(sha, |message|));
    DigestSize(Fold(sha, sha.Initial(), message + Padding(sha, |message|)), sha.WordSize());
  }

  // ----- what a context holds between calls -----

  /** All whole blocks of the message have been folded; the tail waits in the buffer. */
  ghost predicate Pending(sha: Sha, message: Bytes, words: Words, tail: Bytes) {
    && |tail| < sha.BlockSize() && |tail| <= |message|
    && var done := |message| - |tail|;
       done % sha.BlockSize() == 0 && message[done..] == tail && words == Fold(sha, sha.Initial(), message[..done])
  }

  lemma PendingStart(sha: Sha)
    ensures Pending(sha, [], sha.Initial(), [])
  {
    ModSmall(0, sha.BlockSize());
  }

  lemma PendingAppend(sha: Sha, message: Bytes, words: Words, tail: Bytes, chunk: Bytes)
    requires Pending(sha, message, words, tail) && |tail| + |chunk| < sha.BlockSize()
    ensures Pending(sha, message + chunk, words, tail + chunk)
  {
    var done := |message| - |tail|;
    assert (message + chunk)[..done] == message[..done] && (message + chunk)[done..] == tail + chunk;
  }

  lemma PendingFull(sha: Sha, message: Bytes, words: Words, tail: Bytes, chunk: Bytes)
    requires Pending(sha, message, words, tail) && |tail| + |chunk| == sha.BlockSize()
    ensures Pending(sha, message + chunk, sha.compress(words, tail + chunk), [])
  {
    var done, whole := |message| - |tail|, message + chunk;
    assert whole[..done] == message[..done] && whole == whole[..done] + (tail + chunk);
    FoldSnoc(sha, sha.Initial(), whole[..done], tail + chunk);
    assert whole[..|whole|] == whole && whole[|whole|..] == [];
  }

  /** The number of zeros when the length field still fits behind the tail, and when it does not. */
  lemma ZeroCountIs(sha: Sha, n: nat, t: nat)
    requires t < sha.BlockSize() && t <= n && (n - t) % sha.BlockSize() == 0
    ensures t + 1 + sha.LengthSize() <= sha.BlockSize() ==>
              ZeroCount(sha, n) == sha.BlockSize() - sha.LengthSize() - t - 1
    ensures t + 1 + sha.LengthSize() > sha.BlockSize() ==>
              ZeroCount(sha, n) == 2 * sha.BlockSize() - sha.LengthSize() - t - 1
  {
    var size, need := sha.BlockSize(), t + 1 + sha.LengthSize();
    var q := (n - t) / size;
    DivNonNegative(n - t, size);
    assert n + 1 + sha.LengthSize() == need + q * size by { assert n - t == size * q; }
    ModAddMultiple(need, q, size);
    if need < size {
      ModSmall(need, size);
      ModSmall(size - need, size);
    } else if need == size {
      ModAddMultiple(0, 1, size);
      ModSmall(0, size);
      ModAddMultiple(0, 1, size);
    } else {
      ModAddMultiple(need, -1, size);
      ModSmall(need - size, size);
      ModSmall(2 * size - need, size);
    }
  }
}
