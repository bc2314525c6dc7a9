/** The constructions over the hash functions of `src/sha2.cpp` and the HMAC of `src/hmac.cpp`: where the
    other modules take a hash as a parameter, this is the one the library passes. */
module Instances {
  import opened Digits
  import opened Results
  import opened Chunks
  import opened Sha2Spec
  import opened Sha2Rounds
  import Sha2
  import Hmac
  import MaskGeneration
  import RsaPss
  import RsaOaep
  import P256Points
  import Ecdsa
  import Ed25519

  // ----- bytes as bit-vectors and as numbers -----

  function Bits(bytes: seq<Byte>): (s: Bytes)
    ensures |s| == |bytes|
  {
    seq(|bytes|, i requires 0 <= i < |bytes| => ByteOf(bytes[i]))
  }

  function Numbers(bytes: Bytes): (s: seq<Byte>)
    ensures |s| == |bytes|
  {
    seq(|bytes|, i requires 0 <= i < |bytes| => bytes[i] as int)
  }

  // ----- the functions the library passes -----

  function Sha256Digest(message: Bytes): Bytes {
    Hash(SHA256, message)
  }

  function Sha512Digest(message: Bytes): Bytes {
    Hash(SHA512, message)
  }

  function Sha512OfNumbers(message: seq<Byte>): seq<Byte> {
    Numbers(Sha512Digest(Bits(message)))
  }

  function HmacSha256(key: seq<Byte>, message: seq<Byte>): seq<Byte> {
    Numbers(Hmac.Mac(SHA256, Bits(key), Bits(message)))
  }

  /** Byte by byte the two forms have the same values. */
  lemma SameValues(bytes: seq<Byte>, bits: Bytes, i: nat)
    ensures i < |bytes| ==> Bits(bytes)[i] as int == bytes[i]
    ensures i < |bits| ==> Numbers(bits)[i] == bits[i] as int
    ensures Numbers(Bits(bytes)) == bytes
  {
    hide ByteOf;
    if i < |bytes| {
      ByteBack(bytes[i]);
    }
    forall k | 0 <= k < |bytes|
      ensures Numbers(Bits(bytes))[k] == bytes[k]
    {
      ByteBack(bytes[k]);
    }
  }

  /** The nonce generator is given HMAC-SHA-256 of key and message, and Ed25519 the SHA-512 digest. */
  lemma PassedFunctions(key: seq<Byte>, message: seq<Byte>)
    ensures HmacSha256(key, message) == Numbers(Hmac.Mac(SHA256, Bits(key), Bits(message)))
    ensures Sha512OfNumbers(message) == Numbers(Hash(SHA512, Bits(message)))
  {
    hide Hash;
    hide Hmac.Mac;
  }

  lemma DigestSizes(message: Bytes)
    ensures |Sha256Digest(message)| == 32 && |Sha512Digest(message)| == 64
  {
    CompressionsKeepWords();
    hide Hash;
    HashSize(SHA256, message);
    HashSize(SHA512, message);
  }

  /** The streaming contexts compute them, for every split of a message. */
  method Sha256OfChunks(chunks: seq<Bytes>) returns (r: Result<Bytes>)
    ensures r == Ok(Sha256Digest(Flatten(chunks)))
  {
    hide Hash;
    r := Sha2.HashChunks256(Compress256, chunks);
  }

  method Sha512OfChunks(chunks: seq<Bytes>) returns (r: Result<Bytes>)
    ensures r == Ok(Sha512Digest(Flatten(chunks)))
  {
    hide Hash;
    r := Sha2.HashChunks512(Compress512, chunks);
  }

  method HmacSha256OfChunks(key: Bytes, chunks: seq<Bytes>) returns (r: Result<Bytes>)
    ensures r == Ok(Hmac.Mac(SHA256, key, Flatten(chunks)))
  {
    r := Hmac.MacChunks(SHA256, key, chunks);
  }

  // ----- padding with SHA-256 -----

  const SHA256_HASH: MaskGeneration.Hash := MaskGeneration.Hash(32, Sha256Digest)

  lemma Sha256IsSized()
    ensures MaskGeneration.Sized(SHA256_HASH) && MaskGeneration.Usable(SHA256_HASH, SHA256_HASH)
  {
    forall m: Bytes
      ensures |Sha256Digest(m)| == 32
    {
      DigestSizes(m);
    }
    hide Sha256Digest;
  }

  method PssEncodeThenVerify(encodedBits: nat, messageHash: Bytes, salt: Bytes) returns (r: Result<bool>)
    ensures r == if |messageHash| == 32 && RsaPss.EncodedSize(encodedBits) >= 34 + |salt| then Ok(true) else Err(InvalidArgument)
  {
    Sha256IsSized();
    hide Sha256Digest;
    hide MaskGeneration.Sized;
    r := RsaPss.EncodeThenVerify(encodedBits, messageHash, salt, RsaPss.PssParams(SHA256_HASH, SHA256_HASH, |salt|));
  }

  method OaepEncodeThenDecode(size: nat, message: Bytes, seed: Bytes, labelBytes: Bytes) returns (r: Result<Bytes>)
    requires |seed| == 32 && size >= 66 + |message|
    ensures r == Ok(message)
  {
    Sha256IsSized();
    hide Sha256Digest;
    hide MaskGeneration.Sized;
    r := RsaOaep.EncodeThenDecode(size, message, seed, RsaOaep.OaepParams(SHA256_HASH, SHA256_HASH, labelBytes));
  }

  // ----- signatures -----

  /** ECDSA with the nonces of section 3.2 of RFC 6979: sign, then verify, says yes unless signing gave up. */
  method EcdsaSignThenVerify(privateScalar: seq<Byte>, digest: seq<Byte>) returns (r: Result<bool>)
    requires Ecdsa.GroupOfPrimeOrder() && |digest| == 32 && 0 < Be(privateScalar) < P256Points.N
    ensures r == if Ecdsa.SigningPair(HmacSha256, privateScalar, digest).None? then Err(ProviderError) else Ok(true)
  {
    hide *;
    r := Ecdsa.SignThenVerify(HmacSha256, privateScalar, digest);
  }

  /** Ed25519 with SHA-512: sign, then verify, says yes. */
  method Ed25519SignThenVerify(seed: seq<Byte>, message: seq<Byte>) returns (r: Result<bool>)
    requires Ed25519.GroupFacts() && |seed| == 32
    ensures r == Ok(true)
  {
    Sha512IsSized();
    hide *;
    r := Ed25519.SignThenVerify(Sha512OfNumbers, seed, message);
  }

  lemma Sha512IsSized()
    ensures Ed25519.DigestSized(Sha512OfNumbers)
  {
    forall m: seq<Byte>
      ensures |Sha512OfNumbers(m)| == 64
    {
      DigestSizes(Bits(m));
    }
    hide Sha512OfNumbers;
  }
}
