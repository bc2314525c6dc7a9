/** Hash functions as parameters, and the mask generation function that `src/rsa_pss.cpp` and
    `src/rsa_oaep.cpp` share (appendix B.2.1 of RFC 8017). */
module MaskGeneration {
  import NumberTheory
  import opened Chunks

  type Bytes = seq<bv8>

  /** A hash algorithm: its digest size, zero when it is not supported, and the digest itself. */
  datatype Hash = Hash(size: nat, digest: Bytes -> Bytes)

  /** The digest has the announced length. */
  ghost predicate Sized(hash: Hash) {
    forall m :: |hash.digest(m)| == hash.size
  }

  /** Both hashes of a padding scheme have the announced length, where they are supported. */
  ghost predicate Usable(messageHash: Hash, mgf1Hash: Hash) {
    (messageHash.size > 0 ==> Sized(messageHash)) && (mgf1Hash.size > 0 ==> Sized(mgf1Hash))
  }

  /** The 32-bit counter; it wraps. */
  type Counter = n: nat | n < 0x1_0000_0000

  function Next(counter: Counter): Counter {
    (counter + 1) % 0x1_0000_0000
  }

  function Block(hash: Hash, seed: Bytes, counter: Counter): Bytes {
    hash.digest(seed + BeBytes(counter, 4))
  }

  /** Blocks counter, counter + 1, ... (the 32-bit counter wraps), cut to n bytes. */
  ghost function MaskFrom(hash: Hash, seed: Bytes, counter: Counter, n: nat): (mask: Bytes)
    requires Sized(hash) && hash.size > 0
    ensures |mask| == n
    decreases n
  {
    var block := Block(hash, seed, counter);
    if n <= hash.size then block[..n] else block + MaskFrom(hash, seed, Next(counter), n - hash.size)
  }

  ghost function Mask(hash: Hash, seed: Bytes, n: nat): (mask: Bytes)
    requires Sized(hash) && hash.size > 0
    ensures |mask| == n
  {
    MaskFrom(hash, seed, 0, n)
  }

  /** The counter after k steps. */
  function CounterAt(counter: Counter, k: nat): Counter
    decreases k
  {
    if k == 0 then counter else CounterAt(Next(counter), k - 1)
  }

  /** Byte i of the mask is byte i mod hLen of the block with counter i / hLen. */
  lemma {:induction false} MaskByte(hash: Hash, seed: Bytes, counter: Counter, n: nat, i: nat)
    requires Sized(hash) && hash.size > 0 && i < n
    ensures MaskFrom(hash, seed, counter, n)[i] == Block(hash, seed, CounterAt(counter, i / hash.size))[i % hash.size]
    decreases n
  {
    hide Block;
    var size := hash.size;
    assert |Block(hash, seed, counter)| == size by { BlockSize(hash, seed, counter); }
    if i < size {
      FirstBlock(i, size);
    } else {
      LaterBlock(i, size);
      MaskByte(hash, seed, Next(counter), n - size, i - size);
    }
  }

  /** The counter after k steps is k modulo 2^32. */
  lemma {:induction false} CounterValue(counter: Counter, k: nat)
    ensures CounterAt(counter, k) == (counter + k) % 0x1_0000_0000
    decreases k
  {
    if k == 0 {
      NumberTheory.ModSmall(counter, 0x1_0000_0000);
    } else {
      CounterValue(Next(counter), k - 1);
      NextTerm(counter, k - 1);
    }
  }

  lemma NextTerm(counter: Counter, k: nat)
    ensures (Next(counter) + k) % 0x1_0000_0000 == (counter + 1 + k) % 0x1_0000_0000
  {
    if counter == 0xFFFF_FFFF {
      NumberTheory.ModAddMultiple(k, 1, 0x1_0000_0000);
    }
  }

  /** Byte i of the mask in numbers: it comes from the hash of the seed and the four bytes that spell
      i / hLen modulo 2^32. */
  lemma MaskByteOf(hash: Hash, seed: Bytes, n: nat, i: nat, counter: Bytes)
    requires Sized(hash) && hash.size > 0 && i < n && |counter| == 4
    requires BeNumber(counter) == (i / hash.size) % 0x1_0000_0000
    ensures |hash.digest(seed + counter)| == hash.size && Mask(hash, seed, n)[i] == hash.digest(seed + counter)[i % hash.size]
  {
    hide MaskFrom;
    hide BeBytes;
    NumberTheory.DivNonNegative(i, hash.size);
    MaskByte(hash, seed, 0, n, i);
    var at := CounterAt(0, i / hash.size);
    CounterValue(0, i / hash.size);
    FourBytes();
    NumberTheory.ModSmall(at, 0x1_0000_0000);
    BeNumberOfBytes(at, 4);
    BeNumberInjective(BeBytes(at, 4), counter);
  }

  lemma FourBytes()
    ensures NumberTheory.Pow(256, 4) == 0x1_0000_0000
  {
  }

  lemma BlockSize(hash: Hash, seed: Bytes, counter: Counter)
    requires Sized(hash)
    ensures |Block(hash, seed, counter)| == hash.size
  {
  }

  lemma FirstBlock(i: nat, size: nat)
    requires i < size
    ensures i / size == 0 && i % size == i
  {
  }

  lemma LaterBlock(i: nat, size: nat)
    requires 0 < size <= i
    ensures i / size >= 1 && i / size - 1 == (i - size) / size && i % size == (i - size) % size
  {
    NumberTheory.ModAddMultiple(i - size, 1, size);
    NumberTheory.DivNonNegative(i - size, size);
  }

  /** The loop shared by both files: appends whole blocks, then what is still missing. */
  method Mgf1(hash: Hash, seed: Bytes, outputSize: nat) returns (output: Bytes)
    requires Sized(hash) && hash.size > 0
    ensures output == Mask(hash, seed, outputSize)
  {
    hide MaskFrom;
    hide BeBytes;
    output := [];
    var counter: Counter := 0;
    while |output| < outputSize
      invariant |output| <= outputSize
      invariant Mask(hash, seed, outputSize) == output + MaskFrom(hash, seed, counter, outputSize - |output|)
      decreases outputSize - |output|
    {
      var block := hash.digest(seed + BeBytes(counter, 4));
      assert block == Block(hash, seed, counter);
      var take := if |block| <= outputSize - |output| then |block| else outputSize - |output|;
      NextBlock(hash, seed, counter, outputSize - |output|, take);
      output := output + block[..take];
      counter := Next(counter);
    }
    NoMoreBlocks(hash, seed, counter);
  }

  lemma NoMoreBlocks(hash: Hash, seed: Bytes, counter: Counter)
    requires Sized(hash) && hash.size > 0
    ensures MaskFrom(hash, seed, counter, 0) == []
  {
  }

  lemma NextBlock(hash: Hash, seed: Bytes, counter: Counter, n: nat, take: nat)
    requires Sized(hash) && hash.size > 0 && n > 0
    requires take == if hash.size <= n then hash.size else n
    ensures MaskFrom(hash, seed, counter, n)
         == Block(hash, seed, counter)[..take] + MaskFrom(hash, seed, Next(counter), n - take)
  {
    hide Block;
    BlockSize(hash, seed, counter);
    var block := Block(hash, seed, counter);
    assert block[..|block|] == block;
  }
}
