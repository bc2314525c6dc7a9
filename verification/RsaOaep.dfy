/** EME-OAEP, `src/rsa_oaep.cpp` (section 7.1 of RFC 8017). */
module RsaOaep {
  import opened MaskGeneration
  import opened Chunks
  import opened ConstantTime
  import opened Results

  datatype OaepParams = OaepParams(messageHash: Hash, mgf1Hash: Hash, labelBytes: Bytes)

  ghost predicate Supported(params: OaepParams) {
    Usable(params.messageHash, params.mgf1Hash) && params.messageHash.size > 0 && params.mgf1Hash.size > 0
  }

  function LabelHash(params: OaepParams): Bytes {
    params.messageHash.digest(params.labelBytes)
  }

  // ----- the encoding -----

  function Xor(a: Bytes, b: Bytes): (r: Bytes)
    requires |a| == |b|
    ensures |r| == |a|
  {
    seq(|a|, i requires 0 <= i < |a| && |a| == |b| => a[i] ^ b[i])
  }

  /** Label hash, zero padding, a one, the message. */
  function DataBlock(size: nat, labelHash: Bytes, message: Bytes): (db: Bytes)
    requires |labelHash| + 1 + |message| <= size
    ensures |db| == size
  {
    labelHash + Zeros(size - |labelHash| - 1 - |message|) + [1] + message
  }

  /** 0x00, maskedSeed, maskedDB. */
  ghost function Encoding(size: nat, message: Bytes, seed: Bytes, params: OaepParams): (em: Bytes)
    requires Supported(params) && |seed| == params.messageHash.size && size >= 2 * |seed| + 2 + |message|
    ensures |em| == size
  {
    var dbSize := size - |seed| - 1;
    assert |LabelHash(params)| == |seed|;
    var maskedDb := Xor(DataBlock(dbSize, LabelHash(params), message), Mask(params.mgf1Hash, seed, dbSize));
    [0] + Xor(seed, Mask(params.mgf1Hash, maskedDb, |seed|)) + maskedDb
  }

  /** The encoding byte by byte: 0x00, the seed under the mask grown from the masked block, and the block
      lHash || 00..00 || 01 || M under the mask grown from the seed (section 7.1.1 of RFC 8017). */
  lemma EncodingBytes(size: nat, message: Bytes, seed: Bytes, params: OaepParams)
    requires Supported(params) && |seed| == params.messageHash.size && size >= 2 * |seed| + 2 + |message|
    ensures var em := Encoding(size, message, seed, params);
            var lHash, maskedDb := params.messageHash.digest(params.labelBytes), em[1 + |seed|..];
            var mask, seedMask := Mask(params.mgf1Hash, seed, |maskedDb|), Mask(params.mgf1Hash, maskedDb, |seed|);
            && em[0] == 0 && |lHash| == |seed|
            && (forall i :: 0 <= i < |seed| ==> em[1 + i] == seed[i] ^ seedMask[i])
            && (forall i :: 0 <= i < |seed| ==> maskedDb[i] == lHash[i] ^ mask[i])
            && (forall i :: |seed| <= i < |maskedDb| - |message| - 1 ==> maskedDb[i] == 0 ^ mask[i])
            && maskedDb[|maskedDb| - |message| - 1] == 1 ^ mask[|maskedDb| - |message| - 1]
            && (forall i :: 0 <= i < |message| ==>
                  maskedDb[|maskedDb| - |message| + i] == message[i] ^ mask[|maskedDb| - |message| + i])
  {
    hide Mask;
    hide Sized;
    LabelHashSize(params);
    var dbSize := size - |seed| - 1;
    var db := DataBlock(dbSize, LabelHash(params), message);
    var em := Encoding(size, message, seed, params);
    var maskedDb := Xor(db, Mask(params.mgf1Hash, seed, dbSize));
    assert em[1 + |seed|..] == maskedDb;
  }

  /** The bytes encode the message with some seed. */
  ghost predicate Encodes(em: Bytes, message: Bytes, params: OaepParams)
    requires Supported(params)
  {
    exists seed: Bytes :: IsEncoding(em, message, seed, params)
  }

  ghost predicate IsEncoding(em: Bytes, message: Bytes, seed: Bytes, params: OaepParams)
    requires Supported(params)
  {
    && |seed| == params.messageHash.size && |em| >= 2 * |seed| + 2 + |message|
    && em == Encoding(|em|, message, seed, params)
  }

  method XorInPlace(db: array<bv8>, mask: Bytes)
    requires db.Length == |mask|
    modifies db
    ensures db[..] == Xor(old(db[..]), mask)
  {
    ghost var before := db[..];
    for i := 0 to db.Length
      invariant forall k :: 0 <= k < i ==> db[k] == before[k] ^ mask[k]
      invariant forall k :: i <= k < db.Length ==> db[k] == before[k]
    {
      db[i] := db[i] ^ mask[i];
    }
  }

  method EmeOaepEncode(encodedSize: nat, message: Bytes, seed: Bytes, params: OaepParams) returns (r: Result<Bytes>)
    requires Usable(params.messageHash, params.mgf1Hash)
    ensures params.messageHash.size == 0 || params.mgf1Hash.size == 0 ==> r == Err(UnsupportedAlgorithm)
    ensures params.messageHash.size > 0 && params.mgf1Hash.size > 0 ==>
              r == if |seed| == params.messageHash.size && encodedSize >= 2 * |seed| + 2 + |message|
                   then Ok(Encoding(encodedSize, message, seed, params)) else Err(InvalidArgument)
  {
    var hashSize := params.messageHash.size;
    if hashSize == 0 || params.mgf1Hash.size == 0 {
      return Err(UnsupportedAlgorithm);
    }
    if |seed| != hashSize {
      return Err(InvalidArgument);
    }
    if encodedSize < 2 * hashSize + 2 {
      return Err(InvalidArgument);
    }
    if |message| > encodedSize - 2 * hashSize - 2 {
      return Err(InvalidArgument);
    }
    var dbSize := encodedSize - hashSize - 1;
    LabelHashSize(params);
    hide LabelHash;
    hide Mask;
    hide Sized;
    var bytes := LabelHash(params) + Zeros(dbSize - |message| - 1 - hashSize) + [0x01] + message;
    assert bytes == DataBlock(dbSize, LabelHash(params), message);
    var db := new bv8[dbSize](i requires 0 <= i < |bytes| => bytes[i]);
    assert db[..] == bytes;
    var dbMask := Mgf1(params.mgf1Hash, seed, dbSize);
    XorInPlace(db, dbMask);
    var maskedDb := db[..];
    var seedMask := Mgf1(params.mgf1Hash, maskedDb, hashSize);
    var maskedSeed := new bv8[hashSize](i requires 0 <= i < |seed| => seed[i]);
    assert maskedSeed[..] == seed;
    XorInPlace(maskedSeed, seedMask);
    r := Ok([0] + maskedSeed[..] + maskedDb);
  }

  lemma LabelHashSize(params: OaepParams)
    requires Supported(params)
    ensures |LabelHash(params)| == params.messageHash.size
  {
  }

  // ----- the separator scan -----

  /** The padding from `start` on is zeros up to a one at `separator`. */
  predicate Separated(db: Bytes, start: nat, separator: nat) {
    && start <= separator < |db| && db[separator] == 1
    && forall k :: start <= k < separator ==> db[k] == 0
  }

  /** What the three masks say after the bytes before `i`: whether a one is still sought, where the
      first one was, and whether something other than zero preceded it. */
  ghost predicate Scanned(db: Bytes, start: nat, i: nat, separator: nat, scanning: bool, invalid: bool) {
    && start <= i <= |db|
    && (scanning <==> forall k :: start <= k < i ==> db[k] != 1)
    && (scanning ==> separator == |db|)
    && (!scanning ==> start <= separator < i && db[separator] == 1 && forall k :: start <= k < separator ==> db[k] != 1)
    && (invalid <==> exists k :: start <= k < (if scanning then i else separator) && db[k] != 0)
  }

  lemma ScanStep(db: Bytes, start: nat, i: nat, separator: nat, scanning: bool, invalid: bool)
    requires Scanned(db, start, i, separator, scanning, invalid) && i < |db|
    ensures var one, zero := db[i] == 1, db[i] == 0;
            Scanned(db, start, i + 1, if scanning && one then i else separator, scanning && !one,
                    invalid || (scanning && !(zero || one)))
  {
    if scanning && db[i] != 0 && db[i] != 1 {
      assert start <= i < i + 1 && db[i] != 0;
    }
  }

  lemma ScanResult(db: Bytes, start: nat, separator: nat, scanning: bool, invalid: bool)
    requires Scanned(db, start, |db|, separator, scanning, invalid)
    ensures !scanning && !invalid <==> Separated(db, start, separator)
    ensures (exists k: nat :: Separated(db, start, k)) ==> Separated(db, start, separator)
  {
    if k: nat :| Separated(db, start, k) {
      assert db[k] == 1;
    }
  }

  /** The masked scan for the first one. */
  method ScanSeparator(db: Bytes, start: nat) returns (separator: nat, scanningMask: bv8, invalidPaddingMask: bv8)
    requires start <= |db|
    ensures scanningMask == BoolMask(!(exists k :: start <= k < |db| && db[k] == 1))
    ensures (exists k: nat :: Separated(db, start, k)) ==> Separated(db, start, separator)
    ensures !invalidPaddingMask & !scanningMask == BoolMask(Separated(db, start, separator))
  {
    hide IsZeroMask;
    hide BoolMask;
    hide Scanned;
    hide SameMask;
    separator, scanningMask, invalidPaddingMask := |db|, BoolMask(true), BoolMask(false);
    ghost var scanning, invalid := true, false;
    assert Scanned(db, start, start, separator, true, false) by { StartScan(db, start); }
    for i := start to |db|
      invariant scanningMask == BoolMask(scanning) && invalidPaddingMask == BoolMask(invalid)
      invariant Scanned(db, start, i, separator, scanning, invalid)
    {
      ghost var zero, one := db[i] == 0, db[i] == 1;
      var isZero := IsZeroMask(db[i]);
      var isOne := SameMask(db[i], 0x01);
      ZeroMaskIsBool(db[i]);
      BoolMasks(scanning, one);
      BoolMasks(zero, one);
      BoolMasks(zero || one, true);
      BoolMasks(scanning, !(zero || one));
      BoolMasks(invalid, scanning && !(zero || one));
      BoolMasks(one, true);
      BoolMasks(scanning, !one);
      ScanStep(db, start, i, separator, scanning, invalid);
      SelectsByBool(scanning && one, i, separator);
      separator := SelectSize(scanningMask & isOne, i, separator);
      invalidPaddingMask := invalidPaddingMask | (scanningMask & !(isZero | isOne));
      scanningMask := scanningMask & !isOne;
      invalid := invalid || (scanning && !(zero || one));
      scanning := scanning && !one;
    }
    ScanResult(db, start, separator, scanning, invalid);
    BoolMasks(scanning, true);
    BoolMasks(invalid, true);
    BoolMasks(!invalid, !scanning);
    StillScanning(db, start, separator, scanning, invalid);
  }

  lemma StartScan(db: Bytes, start: nat)
    requires start <= |db|
    ensures Scanned(db, start, start, |db|, true, false)
  {
  }

  lemma StillScanning(db: Bytes, start: nat, separator: nat, scanning: bool, invalid: bool)
    requires Scanned(db, start, |db|, separator, scanning, invalid)
    ensures scanning <==> !(exists k :: start <= k < |db| && db[k] == 1)
  {
  }

  lemma SelectsByBool(b: bool, x: nat, y: nat)
    ensures SelectSize(BoolMask(b), x, y) == if b then x else y
  {
  }

  // ----- decoding -----

  /** The seed and the data block behind an encoded message. */
  ghost predicate IsUnmasked(em: Bytes, params: OaepParams, seed: Bytes, db: Bytes)
    requires Supported(params)
  {
    var hashSize := params.messageHash.size;
    && |em| >= 2 * hashSize + 2
    && seed == Xor(em[1..1 + hashSize], Mask(params.mgf1Hash, em[1 + hashSize..], hashSize))
    && db == Xor(em[1 + hashSize..], Mask(params.mgf1Hash, seed, |em| - 1 - hashSize))
  }

  /** Returns m exactly when the input is an encoding of m with some seed, and otherwise one error. */
  method EmeOaepDecode(em: Bytes, params: OaepParams) returns (r: Result<Bytes>)
    requires Usable(params.messageHash, params.mgf1Hash)
    ensures params.messageHash.size == 0 || params.mgf1Hash.size == 0 ==> r == Err(UnsupportedAlgorithm)
    ensures params.messageHash.size > 0 && params.mgf1Hash.size > 0 && r.Ok? ==> Encodes(em, r.value, params)
    ensures params.messageHash.size > 0 && params.mgf1Hash.size > 0 && r.Err? ==> r.error == AuthenticationFailed && forall m: Bytes :: !Encodes(em, m, params)
    ensures params.messageHash.size > 0 && params.mgf1Hash.size > 0 ==> forall m: Bytes :: Encodes(em, m, params) ==> r == Ok(m)
  {
    var hashSize := params.messageHash.size;
    if hashSize == 0 || params.mgf1Hash.size == 0 {
      return Err(UnsupportedAlgorithm);
    }
    if |em| < 2 * hashSize + 2 {
      TooShort(em, params);
      return Err(AuthenticationFailed);
    }
    LabelHashSize(params);
    hide LabelHash;
    hide Mask;
    hide Sized;
    hide IsZeroMask;
    hide BoolMask;
    hide Encodes;
    hide Xor;
    var maskedSeed, maskedDb := em[1..1 + hashSize], em[1 + hashSize..];
    var seedMask := Mgf1(params.mgf1Hash, maskedDb, hashSize);
    var seed := UnmaskBytes(maskedSeed, seedMask);
    var dbMask := Mgf1(params.mgf1Hash, seed, |maskedDb|);
    var db := UnmaskBytes(maskedDb, dbMask);
    assert IsUnmasked(em, params, seed, db);
    var sameLabel := Equal(db[..hashSize], LabelHash(params));
    var validMask := BoolMask(em[0] == 0) & BoolMask(sameLabel);
    BoolMasks(em[0] == 0, sameLabel);
    var separator, scanningMask, invalidPaddingMask := ScanSeparator(db, hashSize);
    validMask := (validMask & !invalidPaddingMask) & !scanningMask;
    AndAssociates(BoolMask(em[0] == 0 && sameLabel), !invalidPaddingMask, !scanningMask);
    BoolMasks(em[0] == 0 && sameLabel, Separated(db, hashSize, separator));
    DecodeDecides(em, params, seed, db, separator);
    FullMask(em[0] == 0 && sameLabel && Separated(db, hashSize, separator));
    if validMask != 0xFF {
      return Err(AuthenticationFailed);
    }
    r := Ok(db[separator + 1..]);
  }

  lemma AndAssociates(a: bv8, b: bv8, c: bv8)
    ensures (a & b) & c == a & (b & c)
  {
  }

  method UnmaskBytes(masked: Bytes, mask: Bytes) returns (r: Bytes)
    requires |masked| == |mask|
    ensures r == Xor(masked, mask)
  {
    var output := new bv8[|masked|](i requires 0 <= i < |masked| => masked[i]);
    assert output[..] == masked;
    XorInPlace(output, mask);
    r := output[..];
  }

  lemma TooShort(em: Bytes, params: OaepParams)
    requires Supported(params) && |em| < 2 * params.messageHash.size + 2
    ensures forall m: Bytes :: !Encodes(em, m, params)
  {
  }

  lemma XorUndone(a: Bytes, b: Bytes)
    requires |a| == |b|
    ensures Xor(Xor(a, b), b) == a
  {
    forall i | 0 <= i < |a|
      ensures (a[i] ^ b[i]) ^ b[i] == a[i]
    {
      XorTwice(a[i], b[i]);
    }
  }

  lemma SeparatorUnique(db: Bytes, start: nat, i: nat, j: nat)
    requires Separated(db, start, i) && Separated(db, start, j)
    ensures i == j
  {
  }

  /** A block that starts with the label hash and is separated is the data block of its tail. */
  lemma SeparatedIsDataBlock(db: Bytes, labelHash: Bytes, separator: nat)
    requires |labelHash| <= |db| && db[..|labelHash|] == labelHash && Separated(db, |labelHash|, separator)
    ensures db == DataBlock(|db|, labelHash, db[separator + 1..])
  {
  }

  lemma DataBlockIsSeparated(size: nat, labelHash: Bytes, message: Bytes)
    requires |labelHash| + 1 + |message| <= size
    ensures var db := DataBlock(size, labelHash, message);
            db[..|labelHash|] == labelHash && Separated(db, |labelHash|, size - |message| - 1)
            && db[size - |message|..] == message
  {
  }

  /** An accepted input encodes the tail of its data block with the recovered seed. */
  lemma AcceptedEncodes(em: Bytes, params: OaepParams, seed: Bytes, db: Bytes, separator: nat)
    requires Supported(params) && IsUnmasked(em, params, seed, db) && em[0] == 0
    requires params.messageHash.size <= |db| && db[..params.messageHash.size] == LabelHash(params)
    requires Separated(db, params.messageHash.size, separator)
    ensures IsEncoding(em, db[separator + 1..], seed, params)
  {
    hide LabelHash;
    hide Mask;
    hide Sized;
    hide Xor;
    hide DataBlock;
    hide Encoding;
    var hashSize := params.messageHash.size;
    LabelHashSize(params);
    var maskedSeed, maskedDb := em[1..1 + hashSize], em[1 + hashSize..];
    SeparatedIsDataBlock(db, LabelHash(params), separator);
    XorUndone(maskedDb, Mask(params.mgf1Hash, seed, |maskedDb|));
    XorUndone(maskedSeed, Mask(params.mgf1Hash, maskedDb, hashSize));
    assert em == [0] + maskedSeed + maskedDb;
    EncodingIs(|em|, db[separator + 1..], seed, params, db, maskedDb);
  }

  lemma EncodingIs(size: nat, message: Bytes, seed: Bytes, params: OaepParams, block: Bytes, maskedDb: Bytes)
    requires Supported(params) && |seed| == params.messageHash.size && |LabelHash(params)| == |seed|
    requires size >= 2 * |seed| + 2 + |message|
    requires block == DataBlock(size - |seed| - 1, LabelHash(params), message)
    requires maskedDb == Xor(block, Mask(params.mgf1Hash, seed, size - |seed| - 1))
    ensures Encoding(size, message, seed, params) == [0] + Xor(seed, Mask(params.mgf1Hash, maskedDb, |seed|)) + maskedDb
  {
    hide LabelHash;
    hide Mask;
    hide Sized;
    hide Xor;
    hide DataBlock;
  }

  /** An encoding unmasks to its own seed and data block. */
  lemma EncodingUnmasks(em: Bytes, params: OaepParams, seed: Bytes, db: Bytes, message: Bytes, s: Bytes)
    requires Supported(params) && IsUnmasked(em, params, seed, db) && IsEncoding(em, message, s, params)
    ensures em[0] == 0 && seed == s && |LabelHash(params)| == params.messageHash.size
    ensures db == DataBlock(|em| - 1 - params.messageHash.size, LabelHash(params), message)
  {
    var hashSize := params.messageHash.size;
    LabelHashSize(params);
    hide LabelHash;
    hide Mask;
    hide Sized;
    var size := |em| - 1 - hashSize;
    var block := DataBlock(size, LabelHash(params), message);
    hide DataBlock;
    var maskedDb := Xor(block, Mask(params.mgf1Hash, s, size));
    var maskedSeed := Xor(s, Mask(params.mgf1Hash, maskedDb, hashSize));
    XorUndone(s, Mask(params.mgf1Hash, maskedDb, hashSize));
    XorUndone(block, Mask(params.mgf1Hash, s, size));
    hide Xor;
    assert em == [0] + maskedSeed + maskedDb;
    assert em[1..1 + hashSize] == maskedSeed && em[1 + hashSize..] == maskedDb;
  }

  lemma DecodeDecides(em: Bytes, params: OaepParams, seed: Bytes, db: Bytes, separator: nat)
    requires Supported(params) && |em| >= 2 * params.messageHash.size + 2
    requires IsUnmasked(em, params, seed, db) && |db| == |em| - 1 - params.messageHash.size
    requires (exists k: nat :: Separated(db, params.messageHash.size, k)) ==> Separated(db, params.messageHash.size, separator)
    ensures var accepted := em[0] == 0 && db[..params.messageHash.size] == LabelHash(params)
                            && Separated(db, params.messageHash.size, separator);
            && (accepted ==> Encodes(em, db[separator + 1..], params))
            && (forall m: Bytes :: Encodes(em, m, params) ==> accepted && m == db[separator + 1..])
  {
    var hashSize := params.messageHash.size;
    hide LabelHash;
    hide IsUnmasked;
    hide IsEncoding;
    hide DataBlock;
    if em[0] == 0 && db[..hashSize] == LabelHash(params) && Separated(db, hashSize, separator) {
      AcceptedEncodes(em, params, seed, db, separator);
    }
    forall m: Bytes | Encodes(em, m, params)
      ensures em[0] == 0 && db[..hashSize] == LabelHash(params)
      ensures Separated(db, hashSize, separator) && m == db[separator + 1..]
    {
      var s: Bytes :| IsEncoding(em, m, s, params);
      EncodingUnmasks(em, params, seed, db, m, s);
      EncodingSize(em, m, s, params);
      DataBlockIsSeparated(|db|, LabelHash(params), m);
      SeparatorUnique(db, hashSize, separator, |db| - |m| - 1);
    }
  }

  lemma EncodingSize(em: Bytes, message: Bytes, seed: Bytes, params: OaepParams)
    requires Supported(params) && IsEncoding(em, message, seed, params)
    ensures |em| >= 2 * params.messageHash.size + 2 + |message|
  {
    hide Encoding;
  }

  /** decode(encode(m, seed)) = m for every seed and every size that fits. */
  lemma EncodingEncodes(size: nat, message: Bytes, seed: Bytes, params: OaepParams)
    requires Supported(params) && |seed| == params.messageHash.size && size >= 2 * |seed| + 2 + |message|
    ensures Encodes(Encoding(size, message, seed, params), message, params)
  {
    hide Encoding;
    assert IsEncoding(Encoding(size, message, seed, params), message, seed, params);
  }

  /** One encoding read under two labels: the labels have the same hash and the message is the same. */
  lemma SameLabelHash(em: Bytes, params: OaepParams, seed: Bytes, message: Bytes, other: OaepParams, m: Bytes)
    requires Supported(params) && Supported(other) && other == params.(labelBytes := other.labelBytes)
    requires IsEncoding(em, message, seed, params) && Encodes(em, m, other)
    ensures params.messageHash.digest(params.labelBytes) == other.messageHash.digest(other.labelBytes)
  {
    hide Encoding;
    hide Mask;
    hide Xor;
    hide Sized;
    hide DataBlock;
    var hashSize := params.messageHash.size;
    var s: Bytes :| IsEncoding(em, m, s, other);
    EncodingSize(em, message, seed, params);
    EncodingSize(em, m, s, other);
    var unmasked := Xor(em[1..1 + hashSize], Mask(params.mgf1Hash, em[1 + hashSize..], hashSize));
    var db := Xor(em[1 + hashSize..], Mask(params.mgf1Hash, unmasked, |em| - 1 - hashSize));
    EncodingUnmasks(em, params, unmasked, db, message, seed);
    EncodingUnmasks(em, other, unmasked, db, m, s);
    DataBlockIsSeparated(|db|, LabelHash(params), message);
    DataBlockIsSeparated(|db|, LabelHash(other), m);
  }

  lemma EncodesUnderLabel(em: Bytes, params: OaepParams, seed: Bytes, message: Bytes, other: OaepParams)
    requires Supported(params) && Supported(other) && other == params.(labelBytes := other.labelBytes)
    requires params.messageHash.digest(params.labelBytes) == other.messageHash.digest(other.labelBytes)
    requires IsEncoding(em, message, seed, params)
    ensures Encodes(em, message, other)
  {
    hide Mask;
    hide Xor;
    hide Sized;
    hide DataBlock;
    assert IsEncoding(em, message, seed, other);
  }

  /** A message encoded under one label decodes under another exactly when the labels have the same hash. */
  method EncodeThenDecodeUnder(size: nat, message: Bytes, seed: Bytes, params: OaepParams, labelBytes: Bytes)
    returns (r: Result<Bytes>)
    requires Supported(params) && |seed| == params.messageHash.size && size >= 2 * |seed| + 2 + |message|
    ensures r == if params.messageHash.digest(params.labelBytes) == params.messageHash.digest(labelBytes)
                 then Ok(message) else Err(AuthenticationFailed)
  {
    hide Encoding;
    hide Encodes;
    hide Sized;
    var other := params.(labelBytes := labelBytes);
    var em := EmeOaepEncode(size, message, seed, params);
    assert IsEncoding(em.value, message, seed, params);
    r := EmeOaepDecode(em.value, other);
    if params.messageHash.digest(params.labelBytes) == params.messageHash.digest(labelBytes) {
      EncodesUnderLabel(em.value, params, seed, message, other);
    } else if r.Ok? {
      SameLabelHash(em.value, params, seed, message, other, r.value);
    }
  }

  method EncodeThenDecode(size: nat, message: Bytes, seed: Bytes, params: OaepParams) returns (r: Result<Bytes>)
    requires Supported(params) && |seed| == params.messageHash.size && size >= 2 * |seed| + 2 + |message|
    ensures r == Ok(message)
  {
    hide Encoding;
    hide Encodes;
    hide Sized;
    var em := EmeOaepEncode(size, message, seed, params);
    EncodingEncodes(size, message, seed, params);
    r := EmeOaepDecode(em.value, params);
  }
}
