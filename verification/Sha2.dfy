/** The streaming contexts of `src/sha2.cpp`: a block buffer, a bit counter, and one final call. */
module Sha2 {
  import opened NumberTheory
  import opened Sha2Spec
  import opened Results
  import opened Chunks

  // ----- the buffer, common to both contexts -----

  /** Copies `take` bytes of the input behind the `size` bytes already buffered. */
  method CopyIn(buffer: array<bv8>, size: nat, input: Bytes, take: nat)
    requires size + take <= buffer.Length && take <= |input|
    modifies buffer
    ensures buffer[..size + take] == old(buffer[..size]) + input[..take]
  {
    for i := 0 to take
      invariant buffer[..size] == old(buffer[..size]) && buffer[size..size + i] == input[..i]
    {
      buffer[size + i] := input[i];
    }
    assert buffer[..size + take] == buffer[..size] + buffer[size..size + take];
  }

  method FillZeros(buffer: array<bv8>, from: nat, to: nat)
    requires from <= to <= buffer.Length
    modifies buffer
    ensures buffer[..to] == old(buffer[..from]) + Zeros(to - from)
  {
    for i := from to to
      invariant buffer[..from] == old(buffer[..from]) && buffer[from..i] == Zeros(i - from)
    {
      buffer[i] := 0;
    }
    assert buffer[..to] == buffer[..from] + buffer[from..to];
  }

  /** The loop of `update`: fills the buffer and folds it whenever it is full. */
  method Absorb(sha: Sha, buffer: array<bv8>, words: Words, size: nat, input: Bytes, ghost message: Bytes)
    returns (newWords: Words, newSize: nat)
    requires buffer.Length == sha.BlockSize() && size < sha.BlockSize()
    requires Pending(sha, message, words, buffer[..size])
    modifies buffer
    ensures newSize < sha.BlockSize() && Pending(sha, message + input, newWords, buffer[..newSize])
  {
    hide Pending;
    newWords, newSize := words, size;
    var rest := input;
    ghost var seen := message;
    assert message + input == seen + rest;
    while |rest| > 0
      invariant newSize < sha.BlockSize() && message + input == seen + rest
      invariant Pending(sha, seen, newWords, buffer[..newSize])
      decreases |rest|
    {
      ghost var tail := buffer[..newSize];
      var space := buffer.Length - newSize;
      var take := if space < |rest| then space else |rest|;
      CopyIn(buffer, newSize, rest, take);
      newSize := newSize + take;
      if newSize == buffer.Length {
        PendingFull(sha, seen, newWords, tail, rest[..take]);
        assert buffer[..newSize] == buffer[..];
        newWords := sha.compress(newWords, buffer[..]);
        newSize := 0;
        assert buffer[..0] == [];
      } else {
        PendingAppend(sha, seen, newWords, tail, rest[..take]);
      }
      assert seen + rest == (seen + rest[..take]) + rest[take..];
      seen := seen + rest[..take];
      rest := rest[take..];
    }
    assert message + input == seen;
  }

  /** The block that finishes a message whose tail leaves room for the length field. */
  function LastBlock(sha: Sha, tail: Bytes, length: Bytes): Bytes
    requires |tail| + |length| <= sha.BlockSize()
  {
    tail + Zeros(sha.BlockSize() - |length| - |tail|) + length
  }

  lemma PendingParts(sha: Sha, message: Bytes, words: Words, tail: Bytes) returns (prefix: Bytes)
    requires Pending(sha, message, words, tail)
    ensures message == prefix + tail && |prefix| % sha.BlockSize() == 0 && words == Fold(sha, sha.Initial(), prefix)
  {
    hide Fold;
    prefix := message[..|message| - |tail|];
  }

  lemma HashIs(sha: Sha, message: Bytes)
    ensures |message + Padding(sha, |message|)| % sha.BlockSize() == 0
    ensures Hash(sha, message) == Digest(Fold(sha, sha.Initial(), message + Padding(sha, |message|)), sha.WordSize())
  {
    PaddedSize(sha, |message|);
    hide Padding;
    hide Fold;
    hide Digest;
  }

  lemma TailPaddedShort(sha: Sha, tail: Bytes, n: nat)
    requires |tail| < sha.BlockSize() && |tail| <= n && (n - |tail|) % sha.BlockSize() == 0
    requires |tail| + 1 + sha.LengthSize() <= sha.BlockSize()
    ensures tail + Padding(sha, n) == LastBlock(sha, tail + [0x80], LengthField(sha, n))
    ensures |tail + Padding(sha, n)| == sha.BlockSize()
  {
    ZeroCountIs(sha, n, |tail|);
    hide ZeroCount;
    hide LengthField;
  }

  lemma TailPaddedLong(sha: Sha, tail: Bytes, n: nat)
    requires |tail| < sha.BlockSize() && |tail| <= n && (n - |tail|) % sha.BlockSize() == 0
    requires |tail| + 1 + sha.LengthSize() > sha.BlockSize()
    ensures var full := tail + [0x80] + Zeros(sha.BlockSize() - |tail| - 1);
            |full| == sha.BlockSize() && tail + Padding(sha, n) == full + LastBlock(sha, [], LengthField(sha, n))
  {
    ZeroCountIs(sha, n, |tail|);
    hide ZeroCount;
    hide LengthField;
    hide Zeros;
    var a, b := sha.BlockSize() - |tail| - 1, sha.BlockSize() - sha.LengthSize();
    ZerosSplit(a, b);
    Regroup(tail, [0x80], Zeros(a), Zeros(b), LengthField(sha, n));
  }

  lemma Regroup(t: Bytes, x: Bytes, a: Bytes, b: Bytes, length: Bytes)
    ensures t + (x + (a + b) + length) == (t + x + a) + ([] + b + length)
  {
  }

  lemma FinishShort(sha: Sha, message: Bytes, words: Words, tail: Bytes)
    requires Pending(sha, message, words, tail) && |tail| + 1 + sha.LengthSize() <= sha.BlockSize()
    ensures var last := LastBlock(sha, tail + [0x80], LengthField(sha, |message|));
            Hash(sha, message) == Digest(sha.compress(words, last), sha.WordSize())
  {
    hide *;
    var prefix := PendingParts(sha, message, words, tail);
    TailPaddedShort(sha, tail, |message|);
    HashIs(sha, message);
    assert message + Padding(sha, |message|) == prefix + (tail + Padding(sha, |message|));
    FoldSnoc(sha, sha.Initial(), prefix, tail + Padding(sha, |message|));
  }

  lemma FinishLong(sha: Sha, message: Bytes, words: Words, tail: Bytes)
    requires Pending(sha, message, words, tail) && |tail| + 1 + sha.LengthSize() > sha.BlockSize() > |tail|
    ensures var full := tail + [0x80] + Zeros(sha.BlockSize() - |tail| - 1);
            var last := LastBlock(sha, [], LengthField(sha, |message|));
            Hash(sha, message) == Digest(sha.compress(sha.compress(words, full), last), sha.WordSize())
  {
    hide *;
    var prefix := PendingParts(sha, message, words, tail);
    var full := tail + [0x80] + Zeros(sha.BlockSize() - |tail| - 1);
    var last := LastBlock(sha, [], LengthField(sha, |message|));
    TailPaddedLong(sha, tail, |message|);
    LastBlockSize(sha, [], LengthField(sha, |message|));
    HashIs(sha, message);
    assert message + Padding(sha, |message|) == prefix + (full + last) == prefix + full + last;
    FoldSnoc(sha, sha.Initial(), prefix, full);
    FoldSnoc(sha, sha.Initial(), prefix + full, last);
  }

  lemma LastBlockSize(sha: Sha, tail: Bytes, length: Bytes)
    requires |tail| + |length| <= sha.BlockSize()
    ensures |LastBlock(sha, tail, length)| == sha.BlockSize()
  {
  }

  lemma ZerosSplit(a: nat, b: nat)
    ensures Zeros(a + b) == Zeros(a) + Zeros(b)
  {
  }

  /** Zeros up to the place of the length field, then the length. */
  method WriteLast(sha: Sha, buffer: array<bv8>, filled: nat, length: Bytes)
    requires buffer.Length == sha.BlockSize() && |length| == sha.LengthSize() && filled + |length| <= sha.BlockSize()
    modifies buffer
    ensures buffer[..] == LastBlock(sha, old(buffer[..filled]), length)
  {
    hide Zeros;
    var lengthAt := sha.BlockSize() - |length|;
    FillZeros(buffer, filled, lengthAt);
    CopyIn(buffer, lengthAt, length, |length|);
    assert length[..|length|] == length && buffer[..] == buffer[..lengthAt + |length|];
  }

  /** Pads, folds the last one or two blocks and writes the digest. */
  method Finish(sha: Sha, buffer: array<bv8>, words: Words, size: nat, length: Bytes, ghost message: Bytes)
    returns (digest: Bytes)
    requires buffer.Length == sha.BlockSize() && size < sha.BlockSize()
    requires Pending(sha, message, words, buffer[..size]) && length == LengthField(sha, |message|)
    modifies buffer
    ensures digest == Hash(sha, message)
  {
    hide *;
    ghost var tail := buffer[..size];
    var blockSize, state, filled := sha.BlockSize(), words, size + 1;
    var lengthAt := blockSize - sha.LengthSize();
    buffer[size] := 0x80;
    assert buffer[..filled] == tail + [0x80];
    if filled > lengthAt {
      FinishLong(sha, message, words, tail);
      FillZeros(buffer, filled, blockSize);
      assert buffer[..] == buffer[..blockSize];
      state := sha.compress(state, buffer[..]);
      filled := 0;
      assert buffer[..0] == [];
    } else {
      FinishShort(sha, message, words, tail);
    }
    WriteLast(sha, buffer, filled, length);
    state := sha.compress(state, buffer[..]);
    digest := WriteDigest(state, sha.WordSize());
  }

  method WriteDigest(words: Words, wordSize: nat) returns (digest: Bytes)
    ensures digest == Digest(words, wordSize)
  {
    digest := [];
    for i := 0 to |words|
      invariant digest == Digest(words[..i], wordSize)
    {
      digest := digest + BeBytes(words[i], wordSize);
      assert words[..i + 1][..i] == words[..i];
    }
    assert words[..|words|] == words;
  }

  // ----- bit counters -----

  const WORD64: int := 0x1_0000_0000_0000_0000

  lemma {:induction false} BeBytesTruncated(n: nat, m: nat, len: nat)
    requires Pow(256, len) > 0 && n % Pow(256, len) == m % Pow(256, len)
    ensures BeBytes(n, len) == BeBytes(m, len)
    decreases len
  {
    if len > 0 {
      PowPositive(256, len - 1);
      DivDiv(n, 256, Pow(256, len - 1));
      DivDiv(m, 256, Pow(256, len - 1));
      SameDigits(n, m, Pow(256, len - 1));
      BeBytesTruncated(n / 256, m / 256, len - 1);
    }
  }

  lemma SameDigits(n: nat, m: nat, p: int)
    requires p > 0 && n % (256 * p) == (n / 256) % p * 256 + n % 256
    requires m % (256 * p) == (m / 256) % p * 256 + m % 256
    requires n % (256 * p) == m % (256 * p)
    ensures n % 256 == m % 256 && (n / 256) % p == (m / 256) % p
  {
    DivModUnique(n % (256 * p), 256, (n / 256) % p, n % 256);
    DivModUnique(m % (256 * p), 256, (m / 256) % p, m % 256);
  }

  lemma {:induction false} BeBytesSplit(n: nat, a: nat, b: nat)
    ensures Pow(256, b) > 0 && n / Pow(256, b) >= 0
    ensures BeBytes(n, a + b) == BeBytes(n / Pow(256, b), a) + BeBytes(n, b)
    decreases b
  {
    PowPositive(256, b);
    DivNonNegative(n, Pow(256, b));
    if b == 0 {
      assert BeBytes(n, 0) == [] && n / 1 == n;
    } else {
      PowPositive(256, b - 1);
      BeBytesSplit(n / 256, a, b - 1);
      DivDiv(n, 256, Pow(256, b - 1));
      assert a + b - 1 == a + (b - 1);
    }
  }

  lemma EightBytes()
    ensures Pow(256, 8) == WORD64
  {
    PowAdd(256, 4, 4);
    assert Pow(256, 4) == 0x1_0000_0000;
  }

  /** The 64-bit counter of SHA-256 gives the length field. */
  lemma NarrowLength(sha: Sha, n: nat, bits: nat)
    requires sha.algorithm == Sha256 && bits == 8 * n % WORD64
    ensures BeBytes(bits, 8) == LengthField(sha, n)
  {
    EightBytes();
    ModSmall(bits, WORD64);
    BeBytesTruncated(bits, 8 * n, 8);
  }

  /** The two counters of SHA-512 together count modulo 2^128 and give the length field. */
  lemma WideLength(sha: Sha, n: nat, high: nat, low: nat)
    requires sha.algorithm == Sha512 && low == 8 * n % WORD64 && high == 8 * n / WORD64 % WORD64
    ensures BeBytes(high, 8) + BeBytes(low, 8) == LengthField(sha, n)
  {
    EightBytes();
    BeBytesSplit(8 * n, 8, 8);
    ModSmall(low, WORD64);
    ModSmall(high, WORD64);
    BeBytesTruncated(low, 8 * n, 8);
    BeBytesTruncated(high, 8 * n / WORD64, 8);
    hide BeBytes;
  }

  /** One update of the pair of counters: the wrapped low half tells whether to carry. */
  lemma WideStep(n: nat, m: nat, high: nat, low: nat)
    requires low == 8 * n % WORD64 && high == 8 * n / WORD64 % WORD64
    ensures var added := 8 * m % WORD64;
            var newLow := (low + added) % WORD64;
            var carried := if newLow < added then (high + 1) % WORD64 else high;
            && newLow == 8 * (n + m) % WORD64
            && (carried + m / 0x2000_0000_0000_0000) % WORD64 == 8 * (n + m) / WORD64 % WORD64
  {
    var added := 8 * m % WORD64;
    var q, r := 8 * n / WORD64, 8 * m / WORD64;
    UpperPart(m);
    DivNonNegative(8 * n, WORD64);
    DivNonNegative(8 * m, WORD64);
    assert 8 * (n + m) == (low + added) + (q + r) * WORD64;
    ModAddMultiple(low + added, q + r, WORD64);
    if low + added < WORD64 {
      ModSmall(low + added, WORD64);
      ModSums(q, r, 0);
    } else {
      ModAddMultiple(low + added, -1, WORD64);
      ModSmall(low + added - WORD64, WORD64);
      ModSums(q, r, 1);
    }
  }

  /** Adds the bits of m bytes to the pair of 64-bit counters. */
  method CountBits(high: nat, low: nat, m: nat, ghost n: nat) returns (newHigh: nat, newLow: nat)
    requires low == 8 * n % WORD64 && high == 8 * n / WORD64 % WORD64
    ensures newLow == 8 * (n + m) % WORD64 && newHigh == 8 * (n + m) / WORD64 % WORD64
  {
    WideStep(n, m, high, low);
    var addedBits := 8 * m % WORD64;
    newLow, newHigh := (low + addedBits) % WORD64, high;
    if newLow < addedBits {
      newHigh := (newHigh + 1) % WORD64;
    }
    newHigh := (newHigh + m / 0x2000_0000_0000_0000) % WORD64;
  }

  lemma UpperPart(m: nat)
    ensures m / 0x2000_0000_0000_0000 == 8 * m / WORD64
  {
  }

  lemma ModSums(q: nat, r: nat, c: nat)
    ensures ((q % WORD64 + c) % WORD64 + r) % WORD64 == (c + q + r) % WORD64
    ensures (q % WORD64 + r) % WORD64 == (q + r) % WORD64
  {
  }

  lemma NarrowStep(n: nat, m: nat, bits: nat)
    requires bits == 8 * n % WORD64
    ensures (bits + 8 * m % WORD64) % WORD64 == 8 * (n + m) % WORD64
  {
    CongMod(8 * n, WORD64);
    CongMod(8 * m, WORD64);
    CongAdd(bits, 8 * n, 8 * m % WORD64, 8 * m, WORD64);
  }

  // ----- the contexts -----

  class Sha256Context {
    const sha: Sha
    const buffer: array<bv8>
    var words: Words
    var bitCount: nat
    var bufferSize: nat
    var finalized: bool

    /** Everything that has been hashed so far. */
    ghost var message: Bytes

    ghost predicate Valid()
      reads this, buffer
    {
      && sha.algorithm == Sha256 && buffer.Length == 64
      && (!finalized ==>
            && bufferSize < 64 && Pending(sha, message, words, buffer[..bufferSize])
            && bitCount == 8 * |message| % WORD64)
    }

    constructor (compress: (Words, Bytes) -> Words)
      ensures Valid() && fresh(this) && fresh(buffer)
      ensures !finalized && message == [] && sha == Sha(Sha256, compress)
    {
      sha := Sha(Sha256, compress);
      words := SHA256_INITIAL;
      buffer := new bv8[64](_ => 0);
      bitCount := 0;
      bufferSize := 0;
      finalized := false;
      message := [];
      new;
      ModSmall(0, WORD64);
      PendingStart(sha);
      assert buffer[..0] == [];
    }

    /** Absorbs the input; a finished context refuses it and keeps its message. */
    method Update(input: Bytes) returns (r: Result<()>)
      requires Valid()
      modifies this, buffer
      ensures Valid() && finalized == old(finalized)
      ensures r == if finalized then Err(InvalidArgument) else Ok(())
      ensures message == if finalized then old(message) else old(message) + input
    {
      if finalized {
        return Err(InvalidArgument);
      }
      hide Pending;
      NarrowStep(|message|, |input|, bitCount);
      bitCount := (bitCount + 8 * |input| % WORD64) % WORD64;
      words, bufferSize := Absorb(sha, buffer, words, bufferSize, input, message);
      message := message + input;
      r := Ok(());
    }

    /** Finishes once, with the hash of everything absorbed. */
    method Final() returns (r: Result<Bytes>)
      requires Valid()
      modifies this, buffer
      ensures Valid() && finalized && message == old(message)
      ensures r == if old(finalized) then Err(InvalidArgument) else Ok(Hash(sha, message))
    {
      if finalized {
        return Err(InvalidArgument);
      }
      hide Pending;
      hide Hash;
      finalized := true;
      NarrowLength(sha, |message|, bitCount);
      var length := BeBytes(bitCount, 8);
      var digest := Finish(sha, buffer, words, bufferSize, length, message);
      r := Ok(digest);
    }
  }

  class Sha512Context {
    const sha: Sha
    const buffer: array<bv8>
    var words: Words
    var bitCountLow: nat
    var bitCountHigh: nat
    var bufferSize: nat
    var finalized: bool

    /** Everything that has been hashed so far. */
    ghost var message: Bytes

    ghost predicate Valid()
      reads this, buffer
    {
      && sha.algorithm == Sha512 && buffer.Length == 128
      && (!finalized ==>
            && bufferSize < 128 && Pending(sha, message, words, buffer[..bufferSize])
            && bitCountLow == 8 * |message| % WORD64 && bitCountHigh == 8 * |message| / WORD64 % WORD64)
    }

    constructor (compress: (Words, Bytes) -> Words)
      ensures Valid() && fresh(this) && fresh(buffer)
      ensures !finalized && message == [] && sha == Sha(Sha512, compress)
    {
      sha := Sha(Sha512, compress);
      words := SHA512_INITIAL;
      buffer := new bv8[128](_ => 0);
      bitCountLow := 0;
      bitCountHigh := 0;
      bufferSize := 0;
      finalized := false;
      message := [];
      new;
      ModSmall(0, WORD64);
      PendingStart(sha);
      assert buffer[..0] == [];
    }

    /** Absorbs the input; a finished context refuses it and keeps its message. */
    method Update(input: Bytes) returns (r: Result<()>)
      requires Valid()
      modifies this, buffer
      ensures Valid() && finalized == old(finalized)
      ensures r == if finalized then Err(InvalidArgument) else Ok(())
      ensures message == if finalized then old(message) else old(message) + input
    {
      if finalized {
        return Err(InvalidArgument);
      }
      hide Pending;
      bitCountHigh, bitCountLow := CountBits(bitCountHigh, bitCountLow, |input|, |message|);
      words, bufferSize := Absorb(sha, buffer, words, bufferSize, input, message);
      message := message + input;
      r := Ok(());
    }

    /** Finishes once, with the hash of everything absorbed. */
    method Final() returns (r: Result<Bytes>)
      requires Valid()
      modifies this, buffer
      ensures Valid() && finalized && message == old(message)
      ensures r == if old(finalized) then Err(InvalidArgument) else Ok(Hash(sha, message))
    {
      if finalized {
        return Err(InvalidArgument);
      }
      hide Pending;
      hide Hash;
      finalized := true;
      WideLength(sha, |message|, bitCountHigh, bitCountLow);
      var length := BeBytes(bitCountHigh, 8) + BeBytes(bitCountLow, 8);
      var digest := Finish(sha, buffer, words, bufferSize, length, message);
      r := Ok(digest);
    }
  }

  // ----- any split of a message -----

  /** However the message is cut into updates, final returns its hash. */
  method HashChunks256(compress: (Words, Bytes) -> Words, chunks: seq<Bytes>) returns (r: Result<Bytes>)
    ensures r == Ok(Hash(Sha(Sha256, compress), Flatten(chunks)))
  {
    hide Hash;
    hide Pending;
    var context := new Sha256Context(compress);
    for i := 0 to |chunks|
      invariant fresh(context) && fresh(context.buffer) && context.Valid() && !context.finalized
      invariant context.message == Flatten(chunks[..i])
    {
      var ok := context.Update(chunks[i]);
      assert chunks[..i + 1][..i] == chunks[..i];
    }
    assert chunks[..|chunks|] == chunks;
    r := context.Final();
  }

  method HashChunks512(compress: (Words, Bytes) -> Words, chunks: seq<Bytes>) returns (r: Result<Bytes>)
    ensures r == Ok(Hash(Sha(Sha512, compress), Flatten(chunks)))
  {
    hide Hash;
    hide Pending;
    var context := new Sha512Context(compress);
    for i := 0 to |chunks|
      invariant fresh(context) && fresh(context.buffer) && context.Valid() && !context.finalized
      invariant context.message == Flatten(chunks[..i])
    {
      var ok := context.Update(chunks[i]);
      assert chunks[..i + 1][..i] == chunks[..i];
    }
    assert chunks[..|chunks|] == chunks;
    r := context.Final();
  }
}
