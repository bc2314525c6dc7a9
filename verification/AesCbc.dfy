/** AES in cipher block chaining mode with PKCS#7 padding, `src/aes_cbc.cpp`
    (section 6.2 of SP 800-38A, section 6.3 of RFC 5652). */
module AesCbc {
  import opened Aes
  import opened AesBits
  import opened ConstantTime
  import opened Results
  import opened Chunks

  datatype Direction = EncryptDirection | DecryptDirection

  datatype Padding = NoPadding | Pkcs7

  predicate Aligned(s: Bytes) {
    |s| % 16 == 0
  }

  // ----- chaining -----

  lemma AlignedTail(input: Bytes)
    requires Aligned(input) && input != []
    ensures |input| >= 16 && Aligned(input[16..])
  {
  }

  /** Each block is exclusive-ored with the previous ciphertext block, then encrypted. */
  function Chain(cipher: AesBlockCipher, previous: Block, input: Bytes): (output: Bytes)
    requires cipher.Valid() && Aligned(input)
    ensures |output| == |input|
    decreases |input|
  {
    hide *;
    if input == [] then [] else
      AlignedTail(input);
      var block := Encrypt(cipher, XorBlock(input[..16], previous));
      block + Chain(cipher, block, input[16..])
  }

  function Unchain(cipher: AesBlockCipher, previous: Block, input: Bytes): (output: Bytes)
    requires cipher.Valid() && Aligned(input)
    ensures |output| == |input|
    decreases |input|
  {
    hide *;
    if input == [] then [] else
      AlignedTail(input);
      XorBlock(Decrypt(cipher, input[..16]), previous) + Unchain(cipher, input[..16], input[16..])
  }

  lemma {:induction false} UnchainOfChain(cipher: AesBlockCipher, previous: Block, input: Bytes)
    requires cipher.Valid() && Aligned(input)
    ensures Unchain(cipher, previous, Chain(cipher, previous, input)) == input
    decreases |input|
  {
    hide Encrypt;
    hide Decrypt;
    hide XorBlock;
    if input != [] {
      var mixed := XorBlock(input[..16], previous);
      var block := Encrypt(cipher, mixed);
      var rest := Chain(cipher, block, input[16..]);
      assert Chain(cipher, previous, input)[..16] == block && Chain(cipher, previous, input)[16..] == rest;
      DecryptOfEncrypt(cipher, mixed);
      XorBlockTwice(input[..16], previous);
      UnchainOfChain(cipher, block, input[16..]);
      assert input == input[..16] + input[16..];
    }
  }

  /** Block k of the ciphertext: the encryption of block k of the input plus the block before it, or the
      initialisation vector (section 6.2 of SP 800-38A). */
  lemma {:induction false} ChainBlock(cipher: AesBlockCipher, iv: Block, input: Bytes, k: nat, block: Block, before: Block)
    requires cipher.Valid() && Aligned(input) && 16 * k + 16 <= |input| && block == input[16 * k..16 * k + 16]
    requires if k == 0 then before == iv else before == Chain(cipher, iv, input)[16 * k - 16..16 * k]
    ensures Chain(cipher, iv, input)[16 * k..16 * k + 16] == Encrypt(cipher, XorBlock(block, before))
    decreases k
  {
    hide *;
    FirstOfChain(cipher, iv, input);
    var c, first := Chain(cipher, iv, input), Encrypt(cipher, XorBlock(input[..16], iv));
    assert c[..16] == first && c[16..] == Chain(cipher, first, input[16..]);
    if k == 0 {
      assert c[0..16] == c[..16] && block == input[..16];
    } else {
      LaterBlock(input, k);
      LaterBlock(c, k);
      if k == 1 {
        assert c[0..16] == c[..16];
      } else {
        LaterBlock(c, k - 1);
      }
      ChainBlock(cipher, first, input[16..], k - 1, block, before);
    }
  }

  lemma LaterBlock(s: Bytes, k: nat)
    requires k > 0 && 16 * k + 16 <= |s|
    ensures s[16..][16 * (k - 1)..16 * (k - 1) + 16] == s[16 * k..16 * k + 16]
    ensures s[16..][16 * (k - 1)..16 * k] == s[16 * k..16 * k + 16]
  {
  }

  lemma FirstOfChain(cipher: AesBlockCipher, iv: Block, input: Bytes)
    requires cipher.Valid() && Aligned(input) && |input| >= 16
    ensures Aligned(input[16..])
    ensures var first := Encrypt(cipher, XorBlock(input[..16], iv));
            Chain(cipher, iv, input) == first + Chain(cipher, first, input[16..])
  {
    hide Encrypt;
    hide XorBlock;
    hide AesBlockCipher.Valid;
  }

  // ----- padding -----

  function PadSize(n: nat): (pad: nat)
    ensures 1 <= pad <= 16 && (n + pad) % 16 == 0
  {
    16 - n % 16
  }

  /** The byte n for n at most 16. */
  function PadByte(n: nat): bv8
    requires n <= 16
  {
    n as bv8
  }

  lemma PadByteValue(n: nat)
    requires n <= 16
    ensures PadByte(n) as int == n
  {
  }

  function Pad(message: Bytes): (padded: Bytes)
    ensures Aligned(padded) && |padded| > |message|
  {
    message + seq(PadSize(|message|), _ => PadByte(PadSize(|message|)))
  }

  /** Between one and sixteen bytes are added, each of them saying how many (section 6.3 of RFC 5652). */
  lemma PaddingBytes(message: Bytes)
    ensures var padded := Pad(message);
            var count := |padded| - |message|;
            && |padded| % 16 == 0 && 1 <= count <= 16 && padded[..|message|] == message
            && forall i :: |message| <= i < |padded| ==> padded[i] as int == count
  {
    hide PadByte;
    PadByteValue(PadSize(|message|));
  }

  /** The last byte says how many bytes of its own value end the string. */
  predicate EndsInPadding(s: Bytes) {
    |s| > 0 &&
    var pad := s[|s| - 1] as int;
    && 1 <= pad <= 16 && pad <= |s|
    && forall i :: |s| - pad <= i < |s| ==> s[i] == s[|s| - 1]
  }

  /** On whole blocks the padded strings are exactly the paddings of some message, which is unique. */
  lemma PaddedIsPad(s: Bytes, message: Bytes)
    requires Aligned(s)
    ensures s == Pad(message) <==> EndsInPadding(s) && message == s[..|s| - s[|s| - 1] as int]
  {
    if s == Pad(message) {
      PadByteValue(PadSize(|message|));
      assert s[..|message|] == message;
    }
    if EndsInPadding(s) && message == s[..|s| - s[|s| - 1] as int] {
      var pad := s[|s| - 1] as int;
      SamePad(|message|, pad);
      PadByteBack(s[|s| - 1], pad);
      assert s == message + s[|message|..];
    }
  }

  lemma SamePad(n: nat, pad: nat)
    requires 1 <= pad <= 16 && (n + pad) % 16 == 0
    ensures PadSize(n) == pad
  {
  }

  lemma PadByteBack(b: bv8, pad: nat)
    requires pad <= 16 && b as int == pad
    ensures PadByte(pad) == b
  {
  }

  lemma MaskedDifference(diff: bv8, x: bv8, y: bv8, counted: bool)
    ensures diff | ((x ^ y) & BoolMask(counted)) == 0 <==> diff == 0 && (counted ==> x == y)
  {
    assert x ^ y == 0 <==> x == y;
    var term := (x ^ y) & BoolMask(counted);
    assert counted ==> term == x ^ y;
    assert !counted ==> term == 0;
    assert diff | term == 0 <==> diff == 0 && term == 0;
  }

  /** Byte k from the end. */
  function FromEnd(s: Bytes, k: nat): bv8
    requires k < |s|
  {
    s[|s| - 1 - k]
  }

  /** The masked scan over the last sixteen bytes. */
  method PaddingDifference(output: Bytes, pad: bv8) returns (diff: bv8)
    requires |output| > 0
    ensures diff == 0 <==> forall k :: 0 <= k < 16 && k < |output| && k < pad as int ==> FromEnd(output, k) == pad
  {
    hide BoolMask;
    diff := 0;
    var scanSize := if 16 <= |output| then 16 else |output|;
    for i := 0 to scanSize
      invariant diff == 0 <==> forall k :: 0 <= k < i && k < pad as int ==> FromEnd(output, k) == pad
    {
      MaskedDifference(diff, FromEnd(output, i), pad, i < pad as int);
      diff := diff | ((FromEnd(output, i) ^ pad) & BoolMask(i < pad as int));
    }
  }

  /** Accepts exactly the strings that end in padding and cuts it off. */
  method RemovePadding(output: Bytes) returns (r: Result<Bytes>)
    ensures r.Ok? <==> EndsInPadding(output)
    ensures r == if EndsInPadding(output) then Ok(output[..|output| - output[|output| - 1] as int]) else Err(InvalidArgument)
  {
    if |output| == 0 {
      return Err(InvalidArgument);
    }
    hide IsZeroMask;
    hide BoolMask;
    var pad := output[|output| - 1];
    var inRange := pad != 0 && pad as int <= 16 && pad as int <= |output|;
    var validMask := BoolMask(inRange);
    var diff := PaddingDifference(output, pad);
    BoolMasks(inRange, diff == 0);
    ZeroMaskIsBool(diff);
    validMask := validMask & IsZeroMask(diff);
    FullMask(inRange && diff == 0);
    ZeroByte(pad);
    if inRange {
      SameScan(output, pad as int);
    }
    if validMask != 0xFF {
      return Err(InvalidArgument);
    }
    r := Ok(output[..|output| - pad as int]);
  }

  lemma ZeroByte(b: bv8)
    ensures b as int == 0 <==> b == 0
  {
  }

  /** Counting from the end or from the start of the padding. */
  lemma SameScan(output: Bytes, pad: nat)
    requires 1 <= pad <= 16 && pad <= |output|
    ensures (forall k :: 0 <= k < 16 && k < |output| && k < pad ==> FromEnd(output, k) == output[|output| - 1])
       <==> (forall i :: |output| - pad <= i < |output| ==> output[i] == output[|output| - 1])
  {
    var last := output[|output| - 1];
    if forall k :: 0 <= k < 16 && k < |output| && k < pad ==> FromEnd(output, k) == last {
      forall i | |output| - pad <= i < |output|
        ensures output[i] == last
      {
        assert FromEnd(output, |output| - 1 - i) == output[i];
      }
    }
  }

  // ----- the context -----

  /** What finishing an encryption returns for everything that was fed in. */
  function EncryptResult(cipher: AesBlockCipher, iv: Block, padding: Padding, input: Bytes): Result<Bytes>
    requires cipher.Valid()
  {
    if padding == Pkcs7 then Ok(Chain(cipher, iv, Pad(input)))
    else if !Aligned(input) then Err(InvalidArgument)
    else Ok(Chain(cipher, iv, input))
  }

  function DecryptResult(cipher: AesBlockCipher, iv: Block, padding: Padding, input: Bytes): Result<Bytes>
    requires cipher.Valid()
  {
    if (input == [] && padding == Pkcs7) || !Aligned(input) then Err(InvalidArgument) else
      var output := Unchain(cipher, iv, input);
      if padding == NoPadding then Ok(output)
      else if EndsInPadding(output) then Ok(output[..|output| - output[|output| - 1] as int])
      else Err(InvalidArgument)
  }

  class AesCbcContext {
    const cipher: AesBlockCipher
    const iv: Block
    const direction: Direction
    const padding: Padding
    var buffer: Bytes
    var finalized: bool

    ghost predicate Valid() {
      cipher.Valid()
    }

    constructor (cipher: AesBlockCipher, iv: Block, direction: Direction, padding: Padding)
      requires cipher.Valid()
      ensures Valid() && buffer == [] && !finalized
      ensures this.cipher == cipher && this.iv == iv && this.direction == direction && this.padding == padding
    {
      this.cipher := cipher;
      this.iv := iv;
      this.direction := direction;
      this.padding := padding;
      buffer := [];
      finalized := false;
    }

    /** Buffers the input; a finished context refuses it and does not change. */
    method Update(input: Bytes) returns (r: Result<Bytes>)
      modifies this`buffer
      ensures r == if finalized then Err(InvalidArgument) else Ok([])
      ensures buffer == if finalized then old(buffer) else old(buffer) + input
    {
      if finalized {
        return Err(InvalidArgument);
      }
      buffer := buffer + input;
      r := Ok([]);
    }

    /** Finishes once; the result depends on the concatenation of all updates only. */
    method Final() returns (r: Result<Bytes>)
      requires Valid()
      modifies this`finalized
      ensures finalized
      ensures r == if old(finalized) then Err(InvalidArgument)
                   else if direction == EncryptDirection then EncryptResult(cipher, iv, padding, buffer)
                   else DecryptResult(cipher, iv, padding, buffer)
    {
      if finalized {
        return Err(InvalidArgument);
      }
      finalized := true;
      if direction == EncryptDirection {
        r := EncryptFinal();
      } else {
        r := DecryptFinal();
      }
    }

    method EncryptFinal() returns (r: Result<Bytes>)
      requires Valid()
      ensures r == EncryptResult(cipher, iv, padding, buffer)
    {
      hide Chain;
      hide PadByte;
      hide AesBlockCipher.Valid;
      var input := buffer;
      if padding == Pkcs7 {
        var pad := 16 - |input| % 16;
        input := input + seq(pad, _ => PadByte(pad));
        assert input == Pad(buffer);
      } else if |input| % 16 != 0 {
        return Err(InvalidArgument);
      }
      var output := ChainBlocks(cipher, iv, input);
      r := Ok(output);
    }

    method DecryptFinal() returns (r: Result<Bytes>)
      requires Valid()
      ensures r == DecryptResult(cipher, iv, padding, buffer)
    {
      hide Unchain;
      hide EndsInPadding;
      hide AesBlockCipher.Valid;
      if |buffer| == 0 && padding == Pkcs7 {
        return Err(InvalidArgument);
      }
      if |buffer| % 16 != 0 {
        return Err(InvalidArgument);
      }
      var output := UnchainBlocks(cipher, iv, buffer);
      if padding == Pkcs7 {
        r := RemovePadding(output);
      } else {
        r := Ok(output);
      }
    }
  }

  /** Sixteen bytes of the input exclusive-ored with a block. */
  method MixBlock(input: Bytes, offset: nat, previous: Block) returns (block: Block)
    requires offset + 16 <= |input|
    ensures block == XorBlock(input[offset..offset + 16], previous)
  {
    hide Add;
    var bytes := new bv8[16](_ => 0);
    for i := 0 to 16
      invariant forall k :: 0 <= k < i ==> bytes[k] == Add(input[offset + k], previous[k])
    {
      bytes[i] := Add(input[offset + i], previous[i]);
    }
    block := bytes[..];
  }

  lemma ChainStep(cipher: AesBlockCipher, previous: Block, input: Bytes, offset: nat)
    requires cipher.Valid() && Aligned(input) && offset % 16 == 0 && offset < |input|
    ensures offset + 16 <= |input| && Aligned(input[offset..]) && Aligned(input[offset + 16..])
    ensures var block := Encrypt(cipher, XorBlock(input[offset..offset + 16], previous));
            Chain(cipher, previous, input[offset..]) == block + Chain(cipher, block, input[offset + 16..])
    ensures Unchain(cipher, previous, input[offset..])
         == XorBlock(Decrypt(cipher, input[offset..offset + 16]), previous)
            + Unchain(cipher, input[offset..offset + 16], input[offset + 16..])
  {
    hide Encrypt;
    hide Decrypt;
    hide XorBlock;
    hide AesBlockCipher.Valid;
    AlignedTail(input[offset..]);
    assert input[offset..][..16] == input[offset..offset + 16] && input[offset..][16..] == input[offset + 16..];
  }

  lemma ChainEnd(cipher: AesBlockCipher, previous: Block)
    requires cipher.Valid()
    ensures Aligned([]) && Chain(cipher, previous, []) == [] && Unchain(cipher, previous, []) == []
  {
  }

  method ChainBlocks(cipher: AesBlockCipher, iv: Block, input: Bytes) returns (output: Bytes)
    requires cipher.Valid() && Aligned(input)
    ensures output == Chain(cipher, iv, input)
  {
    hide *;
    output := [];
    var previous: Block, offset := iv, 0;
    assert input[0..] == input;
    while offset < |input|
      invariant offset <= |input| && offset % 16 == 0 && Aligned(input[offset..])
      invariant Chain(cipher, iv, input) == output + Chain(cipher, previous, input[offset..])
      decreases |input| - offset
    {
      ChainStep(cipher, previous, input, offset);
      var block := MixBlock(input, offset, previous);
      var encrypted := EncryptBlock(cipher, block);
      previous := encrypted.value;
      output := output + previous;
      offset := offset + 16;
    }
    ChainEnd(cipher, previous);
    assert input[offset..] == [];
  }

  method UnchainBlocks(cipher: AesBlockCipher, iv: Block, input: Bytes) returns (output: Bytes)
    requires cipher.Valid() && Aligned(input)
    ensures output == Unchain(cipher, iv, input)
  {
    hide *;
    output := [];
    var previous: Block, offset := iv, 0;
    assert input[0..] == input;
    while offset < |input|
      invariant offset <= |input| && offset % 16 == 0 && Aligned(input[offset..])
      invariant Unchain(cipher, iv, input) == output + Unchain(cipher, previous, input[offset..])
      decreases |input| - offset
    {
      ChainStep(cipher, previous, input, offset);
      var decrypted := DecryptBlock(cipher, input[offset..offset + 16]);
      var block := MixBlock(decrypted.value, 0, previous);
      assert decrypted.value[0..16] == decrypted.value;
      output := output + block;
      previous := input[offset..offset + 16];
      offset := offset + 16;
    }
    ChainEnd(cipher, previous);
    assert input[offset..] == [];
  }

  // ----- both directions -----

  /** A whole run: any number of updates, then final. */
  method Run(cipher: AesBlockCipher, iv: Block, direction: Direction, padding: Padding, chunks: seq<Bytes>)
    returns (r: Result<Bytes>)
    requires cipher.Valid()
    ensures r == if direction == EncryptDirection then EncryptResult(cipher, iv, padding, Flatten(chunks))
                 else DecryptResult(cipher, iv, padding, Flatten(chunks))
  {
    hide EncryptResult;
    hide DecryptResult;
    hide AesBlockCipher.Valid;
    var context := new AesCbcContext(cipher, iv, direction, padding);
    for i := 0 to |chunks|
      invariant !context.finalized && context.buffer == Flatten(chunks[..i])
      invariant context.Valid() && fresh(context)
    {
      var ok := context.Update(chunks[i]);
      assert chunks[..i + 1][..i] == chunks[..i];
    }
    assert chunks[..|chunks|] == chunks;
    r := context.Final();
  }

  /** Decryption gives back every message that was encrypted. */
  lemma DecryptOfEncryptResult(cipher: AesBlockCipher, iv: Block, padding: Padding, message: Bytes)
    requires cipher.Valid()
    ensures EncryptResult(cipher, iv, padding, message).Ok? ==>
              DecryptResult(cipher, iv, padding, EncryptResult(cipher, iv, padding, message).value) == Ok(message)
  {
    hide Chain;
    hide Unchain;
    hide Pad;
    hide EndsInPadding;
    hide AesBlockCipher.Valid;
    UnchainOfChain(cipher, iv, Pad(message));
    PaddedIsPad(Pad(message), message);
    if Aligned(message) {
      UnchainOfChain(cipher, iv, message);
    }
  }

  /** With padding, decryption accepts exactly the ciphertexts whose blocks unchain to a padded message. */
  lemma DecryptAccepts(cipher: AesBlockCipher, iv: Block, input: Bytes, message: Bytes)
    requires cipher.Valid()
    ensures DecryptResult(cipher, iv, Pkcs7, input) == Ok(message)
       <==> Aligned(input) && input != [] && Unchain(cipher, iv, input) == Pad(message)
  {
    hide Unchain;
    hide Pad;
    hide EndsInPadding;
    hide AesBlockCipher.Valid;
    if Aligned(input) {
      PaddedIsPad(Unchain(cipher, iv, input), message);
    }
  }

  /** Encrypting in any chunks and decrypting in any chunks, however the ciphertext is cut, returns the message. */
  method EncryptThenDecrypt(cipher: AesBlockCipher, iv: Block, padding: Padding, chunks: seq<Bytes>, cut: Bytes -> seq<Bytes>)
    returns (r: Result<Bytes>)
    requires cipher.Valid() && forall ciphertext :: Flatten(cut(ciphertext)) == ciphertext
    requires padding == NoPadding ==> Aligned(Flatten(chunks))
    ensures r == Ok(Flatten(chunks))
  {
    hide EncryptResult;
    hide DecryptResult;
    hide AesBlockCipher.Valid;
    var encrypted := Run(cipher, iv, EncryptDirection, padding, chunks);
    EncryptSucceeds(cipher, iv, padding, Flatten(chunks));
    DecryptOfEncryptResult(cipher, iv, padding, Flatten(chunks));
    r := Run(cipher, iv, DecryptDirection, padding, cut(encrypted.value));
  }

  lemma EncryptSucceeds(cipher: AesBlockCipher, iv: Block, padding: Padding, message: Bytes)
    requires cipher.Valid() && (padding == NoPadding ==> Aligned(message))
    ensures EncryptResult(cipher, iv, padding, message).Ok?
  {
    hide Chain;
    hide Pad;
  }
}
