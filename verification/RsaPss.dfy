/** EMSA-PSS, `src/rsa_pss.cpp` (section 9.1 of RFC 8017). */
module RsaPss {
  import opened MaskGeneration
  import opened Chunks
  import opened ConstantTime
  import opened Results

  datatype PssParams = PssParams(messageHash: Hash, mgf1Hash: Hash, saltLength: nat)

  function PssHash(hash: Hash, messageHash: Bytes, salt: Bytes): Bytes {
    hash.digest([0, 0, 0, 0, 0, 0, 0, 0] + messageHash + salt)
  }

  // ----- the encoding -----

  function EncodedSize(encodedBits: nat): nat {
    (encodedBits + 7) / 8
  }

  function UnusedBits(encodedBits: nat): (unused: nat)
    ensures unused < 8
  {
    8 * EncodedSize(encodedBits) - encodedBits
  }

  /** Keeps the bits of the first byte that the encoding uses. */
  function TopMask(unused: nat): bv8
    requires unused < 8
  {
    0xFF >> unused
  }

  function DisallowedMask(unused: nat): bv8
    requires 0 < unused < 8
  {
    0xFF << (8 - unused)
  }

  lemma MaskComplement(unused: nat)
    requires unused < 8
    ensures unused > 0 ==> DisallowedMask(unused) == !TopMask(unused)
    ensures TopMask(unused) & 1 == 1 && TopMask(0) == 0xFF
  {
    if unused == 0 {
    } else if unused == 1 {
    } else if unused == 2 {
    } else if unused == 3 {
    } else if unused == 4 {
    } else if unused == 5 {
    } else if unused == 6 {
    } else {
    }
  }

  /** Zero padding, a one, the salt. */
  function DataBlock(size: nat, salt: Bytes): (db: Bytes)
    requires |salt| < size
    ensures |db| == size
  {
    Zeros(size - |salt| - 1) + [1] + salt
  }

  /** Exclusive or with the mask, then the unused bits cleared. */
  function MaskBlock(db: Bytes, mask: Bytes, unused: nat): (masked: Bytes)
    requires |db| == |mask| && unused < 8
    ensures |masked| == |db|
  {
    seq(|db|, i requires 0 <= i < |db| && |db| == |mask| && unused < 8 =>
      if i == 0 then (db[i] ^ mask[i]) & TopMask(unused) else db[i] ^ mask[i])
  }

  /** The encoding of a message hash with a salt: maskedDB, H, 0xBC. */
  ghost function Encoding(encodedBits: nat, messageHash: Bytes, salt: Bytes, params: PssParams): (em: Bytes)
    requires Usable(params.messageHash, params.mgf1Hash) && params.messageHash.size > 0 && params.mgf1Hash.size > 0
    requires EncodedSize(encodedBits) >= params.messageHash.size + |salt| + 2
    ensures |em| == EncodedSize(encodedBits)
  {
    var hash := PssHash(params.messageHash, messageHash, salt);
    var dbSize := EncodedSize(encodedBits) - params.messageHash.size - 1;
    MaskBlock(DataBlock(dbSize, salt), Mask(params.mgf1Hash, hash, dbSize), UnusedBits(encodedBits)) + hash + [0xBC]
  }

  /** The encoding part by part (section 9.1.1 of RFC 8017): the masked block, then H over eight zero bytes, the
      message hash and the salt, then 0xBC. */
  lemma EncodedParts(encodedBits: nat, messageHash: Bytes, salt: Bytes, params: PssParams)
    requires Usable(params.messageHash, params.mgf1Hash) && params.messageHash.size > 0 && params.mgf1Hash.size > 0
    requires EncodedSize(encodedBits) >= params.messageHash.size + |salt| + 2
    ensures var em := Encoding(encodedBits, messageHash, salt, params);
            var hash := params.messageHash.digest([0, 0, 0, 0, 0, 0, 0, 0] + messageHash + salt);
            var dbSize := |em| - |hash| - 1;
            && 8 * |em| - 8 < encodedBits <= 8 * |em| && |hash| == params.messageHash.size
            && em[|em| - 1] == 0xBC && em[dbSize..|em| - 1] == hash
            && em[..dbSize] == MaskBlock(DataBlock(dbSize, salt), Mask(params.mgf1Hash, hash, dbSize), 8 * |em| - encodedBits)
  {
    hide Mask;
    hide MaskBlock;
    hide DataBlock;
    HashSizes(params, messageHash, salt);
    hide Sized;
    var em := Encoding(encodedBits, messageHash, salt, params);
    var hash := PssHash(params.messageHash, messageHash, salt);
    var dbSize := |em| - |hash| - 1;
    var block := MaskBlock(DataBlock(dbSize, salt), Mask(params.mgf1Hash, hash, dbSize), UnusedBits(encodedBits));
    assert em == block + hash + [0xBC];
  }

  /** The masked block byte by byte: zeros, a one and the salt, each byte plus the byte of the mask, and the
      unused bits cleared. */
  lemma MaskedBytes(size: nat, salt: Bytes, mask: Bytes, unused: nat)
    requires |salt| < size == |mask| && unused < 8
    ensures var block, padding := MaskBlock(DataBlock(size, salt), mask, unused), size - |salt| - 1;
            && block[0] == ((if padding == 0 then 1 else 0) ^ mask[0]) & (0xFF >> unused)
            && (forall i :: 0 < i < padding ==> block[i] == 0 ^ mask[i])
            && (padding > 0 ==> block[padding] == 1 ^ mask[padding])
            && (forall i :: 0 <= i < |salt| ==> block[padding + 1 + i] == salt[i] ^ mask[padding + 1 + i])
  {
    DataBlockShape(size, salt);
    hide DataBlock;
  }

  lemma HashSizes(params: PssParams, messageHash: Bytes, salt: Bytes)
    requires params.messageHash.size > 0 && Usable(params.messageHash, params.mgf1Hash)
    ensures |PssHash(params.messageHash, messageHash, salt)| == params.messageHash.size
  {
  }

  /** In place: every byte exclusive-ored, then the first one masked. */
  method MaskInPlace(db: array<bv8>, mask: Bytes, unused: nat)
    requires db.Length == |mask| > 0 && unused < 8
    modifies db
    ensures db[..] == MaskBlock(old(db[..]), mask, unused)
  {
    ghost var before := db[..];
    MaskComplement(unused);
    for i := 0 to db.Length
      invariant forall k :: 0 <= k < i ==> db[k] == before[k] ^ mask[k]
      invariant forall k :: i <= k < db.Length ==> db[k] == before[k]
    {
      db[i] := db[i] ^ mask[i];
    }
    AndAll(db[0]);
    if unused > 0 {
      db[0] := db[0] & (0xFF >> unused);
    }
  }

  lemma AndAll(b: bv8)
    ensures b & 0xFF == b
  {
  }

  method EmsaPssEncode(encodedBits: nat, messageHash: Bytes, salt: Bytes, params: PssParams) returns (r: Result<Bytes>)
    requires Usable(params.messageHash, params.mgf1Hash)
    ensures params.messageHash.size == 0 || params.mgf1Hash.size == 0 ==> r == Err(UnsupportedAlgorithm)
    ensures params.messageHash.size > 0 && params.mgf1Hash.size > 0 ==>
              r == if |messageHash| == params.messageHash.size && |salt| == params.saltLength
                      && EncodedSize(encodedBits) >= params.messageHash.size + |salt| + 2
                   then Ok(Encoding(encodedBits, messageHash, salt, params)) else Err(InvalidArgument)
  {
    var hashSize := params.messageHash.size;
    if hashSize == 0 || params.mgf1Hash.size == 0 {
      return Err(UnsupportedAlgorithm);
    }
    if |messageHash| != hashSize {
      return Err(InvalidArgument);
    }
    if |salt| != params.saltLength {
      return Err(InvalidArgument);
    }
    var encodedSize := (encodedBits + 7) / 8;
    if encodedSize < hashSize + |salt| + 2 {
      return Err(InvalidArgument);
    }
    var hash := PssHash(params.messageHash, messageHash, salt);
    var dbSize := encodedSize - hashSize - 1;
    var paddingSize := encodedSize - |salt| - hashSize - 2;
    var db := new bv8[dbSize](_ => 0);
    db[paddingSize] := 0x01;
    for i := 0 to |salt|
      invariant db[..paddingSize] == Zeros(paddingSize) && db[paddingSize] == 1
      invariant db[paddingSize + 1..paddingSize + 1 + i] == salt[..i]
    {
      db[paddingSize + 1 + i] := salt[i];
    }
    assert db[..] == DataBlock(dbSize, salt);
    var dbMask := Mgf1(params.mgf1Hash, hash, dbSize);
    MaskInPlace(db, dbMask, 8 * encodedSize - encodedBits);
    r := Ok(db[..] + hash + [0xBC]);
  }

  // ----- verification -----

  /** Some salt of the required length encodes to exactly these bytes. */
  ghost predicate IsEncoding(em: Bytes, encodedBits: nat, messageHash: Bytes, params: PssParams)
    requires Usable(params.messageHash, params.mgf1Hash) && params.messageHash.size > 0 && params.mgf1Hash.size > 0
    requires EncodedSize(encodedBits) >= params.messageHash.size + params.saltLength + 2
  {
    exists salt: Bytes :: |salt| == params.saltLength && em == Encoding(encodedBits, messageHash, salt, params)
  }

  /** What the masks of the verifier check one by one on the unmasked block. */
  predicate Checks(em: Bytes, masked: Bytes, db: Bytes, hash: Bytes, paddingSize: nat, unused: nat, expected: Bytes)
    requires |em| > 0 && |masked| == |db| > paddingSize && unused < 8
  {
    && em[|em| - 1] == 0xBC
    && (unused > 0 ==> masked[0] & DisallowedMask(unused) == 0)
    && (forall i :: 0 <= i < paddingSize ==> db[i] == 0)
    && db[paddingSize] == 1
    && hash == expected
  }

  lemma OrZero(a: bv8, b: bv8)
    ensures a | b == 0 <==> a == 0 && b == 0
  {
  }

  /** The accumulated difference of the padding from zero. */
  method PaddingDiff(db: Bytes, paddingSize: nat) returns (diff: bv8)
    requires paddingSize <= |db|
    ensures diff == 0 <==> forall i :: 0 <= i < paddingSize ==> db[i] == 0
  {
    diff := 0;
    for i := 0 to paddingSize
      invariant diff == 0 <==> forall k :: 0 <= k < i ==> db[k] == 0
    {
      OrZero(diff, db[i]);
      diff := diff | db[i];
    }
  }

  /** The checks on an encoded message and the block unmasked from it. */
  predicate Accepted(em: Bytes, encodedBits: nat, messageHash: Bytes, params: PssParams, db: Bytes)
    requires |em| >= params.messageHash.size + params.saltLength + 2
    requires |db| == |em| - params.messageHash.size - 1
  {
    var size := |em| - params.messageHash.size - 1;
    var padding := size - params.saltLength - 1;
    Checks(em, em[..size], db, em[size..|em| - 1], padding, UnusedBits(encodedBits),
           PssHash(params.messageHash, messageHash, db[padding + 1..]))
  }

  ghost predicate IsUnmasked(em: Bytes, encodedBits: nat, params: PssParams, db: Bytes)
    requires Usable(params.messageHash, params.mgf1Hash) && params.mgf1Hash.size > 0 && |em| >= params.messageHash.size + 2
  {
    var size := |em| - params.messageHash.size - 1;
    db == MaskBlock(em[..size], Mask(params.mgf1Hash, em[size..|em| - 1], size), UnusedBits(encodedBits))
  }

  method EmsaPssVerify(em: Bytes, encodedBits: nat, messageHash: Bytes, params: PssParams) returns (r: Result<bool>)
    requires Usable(params.messageHash, params.mgf1Hash)
    ensures params.messageHash.size == 0 || params.mgf1Hash.size == 0 ==> r == Err(UnsupportedAlgorithm)
    ensures params.messageHash.size > 0 && params.mgf1Hash.size > 0 ==>
              if |messageHash| != params.messageHash.size || |em| != EncodedSize(encodedBits) then r == Err(InvalidArgument)
              else if |em| < params.messageHash.size + params.saltLength + 2 then r == Ok(false)
              else r == Ok(IsEncoding(em, encodedBits, messageHash, params))
  {
    var hashSize := params.messageHash.size;
    if hashSize == 0 || params.mgf1Hash.size == 0 {
      return Err(UnsupportedAlgorithm);
    }
    if |messageHash| != hashSize {
      return Err(InvalidArgument);
    }
    var expectedEncodedSize := (encodedBits + 7) / 8;
    if |em| != expectedEncodedSize {
      return Err(InvalidArgument);
    }
    if |em| < hashSize + params.saltLength + 2 {
      return Ok(false);
    }
    var valid := VerifyMasks(em, encodedBits, messageHash, params);
    r := Ok(valid == 0xFF);
  }

  /** The conjunction of all checks as one mask. */
  method CombineMasks(em: Bytes, masked: Bytes, db: Bytes, hash: Bytes, paddingSize: nat, unused: nat, expected: Bytes)
    returns (validMask: bv8)
    requires |em| > 0 && |masked| == |db| > paddingSize && unused < 8
    ensures validMask == BoolMask(Checks(em, masked, db, hash, paddingSize, unused, expected))
  {
    hide DisallowedMask;
    hide SameMask;
    hide IsZeroMask;
    hide BoolMask;
    ghost var ok := em[|em| - 1] == 0xBC;
    validMask := SameMask(em[|em| - 1], 0xBC);
    if unused > 0 {
      var topBits := masked[0] & DisallowedMask(unused);
      BoolMasks(ok, topBits == 0);
      ZeroMaskIsBool(topBits);
      ok := ok && topBits == 0;
      validMask := validMask & IsZeroMask(topBits);
    }
    var paddingDiff := PaddingDiff(db, paddingSize);
    BoolMasks(ok, paddingDiff == 0);
    ZeroMaskIsBool(paddingDiff);
    ok := ok && paddingDiff == 0;
    validMask := validMask & IsZeroMask(paddingDiff);
    BoolMasks(ok, db[paddingSize] == 0x01);
    ok := ok && db[paddingSize] == 0x01;
    validMask := validMask & SameMask(db[paddingSize], 0x01);
    var same := Equal(hash, expected);
    BoolMasks(ok, same);
    validMask := validMask & BoolMask(same);
  }

  method VerifyMasks(em: Bytes, encodedBits: nat, messageHash: Bytes, params: PssParams) returns (validMask: bv8)
    requires Usable(params.messageHash, params.mgf1Hash) && params.messageHash.size > 0 && params.mgf1Hash.size > 0
    requires |em| == EncodedSize(encodedBits) && |em| >= params.messageHash.size + params.saltLength + 2
    ensures validMask == if IsEncoding(em, encodedBits, messageHash, params) then 0xFF else 0x00
  {
    hide IsEncoding;
    hide Mask;
    hide MaskBlock;
    hide PssHash;
    hide Sized;
    hide Checks;
    var hashSize := params.messageHash.size;
    var maskedDbSize := |em| - hashSize - 1;
    var maskedDb, hash := em[..maskedDbSize], em[maskedDbSize..maskedDbSize + hashSize];
    var unusedBits := UnusedBits(encodedBits);
    var dbMask := Mgf1(params.mgf1Hash, hash, maskedDbSize);
    var block := new bv8[maskedDbSize](i requires 0 <= i < |maskedDb| => maskedDb[i]);
    assert block[..] == maskedDb;
    MaskInPlace(block, dbMask, unusedBits);
    var db := block[..];
    var paddingSize := |em| - hashSize - params.saltLength - 2;
    var expected := PssHash(params.messageHash, messageHash, db[paddingSize + 1..]);
    validMask := CombineMasks(em, maskedDb, db, hash, paddingSize, unusedBits, expected);
    ChecksDecide(em, encodedBits, messageHash, params, db);
  }

  // ----- the checks are exact -----

  predicate FitsMask(b: bv8, unused: nat)
    requires unused < 8
  {
    b & TopMask(unused) == b
  }

  lemma MaskTwice(b: bv8, m: bv8, k: bv8)
    requires b & k == b
    ensures (((b ^ m) & k) ^ m) & k == b
  {
  }

  /** Unmasking undoes masking, on blocks whose unused bits are clear. */
  lemma UnmaskOfMask(db: Bytes, mask: Bytes, unused: nat)
    requires |db| == |mask| > 0 && unused < 8 && FitsMask(db[0], unused)
    ensures MaskBlock(MaskBlock(db, mask, unused), mask, unused) == db
  {
    var twice := MaskBlock(MaskBlock(db, mask, unused), mask, unused);
    forall i | 0 <= i < |db|
      ensures twice[i] == db[i]
    {
      if i == 0 {
        MaskTwice(db[0], mask[0], TopMask(unused));
      } else {
        XorTwice(db[i], mask[i]);
      }
    }
  }

  /** The first byte of a data block fits every mask: it is a padding zero or the one. */
  lemma DataBlockFits(size: nat, salt: Bytes, unused: nat)
    requires |salt| < size && unused < 8
    ensures FitsMask(DataBlock(size, salt)[0], unused)
  {
    MaskComplement(unused);
    OneFits(TopMask(unused));
  }

  lemma OneFits(k: bv8)
    requires k & 1 == 1
    ensures 0 & k == 0 && 1 & k == 1
  {
  }

  lemma MaskedFits(b: bv8, k: bv8)
    ensures b & !k == 0 <==> b & k == b
    ensures (b & k) & k == b & k
  {
  }

  lemma MaskedByteFits(b: bv8, unused: nat)
    requires unused < 8
    ensures unused > 0 ==> (b & DisallowedMask(unused) == 0 <==> FitsMask(b, unused))
    ensures unused == 0 ==> FitsMask(b, unused)
    ensures FitsMask(b & TopMask(unused), unused)
  {
    hide TopMask;
    hide DisallowedMask;
    MaskComplement(unused);
    AndAll(b);
    MaskedFits(b, TopMask(unused));
  }

  /** Masking clears the unused bits. */
  lemma MaskBlockFits(db: Bytes, mask: Bytes, unused: nat)
    requires |db| == |mask| > 0 && unused < 8
    ensures FitsMask(MaskBlock(db, mask, unused)[0], unused)
  {
    hide FitsMask;
    MaskedByteFits(db[0] ^ mask[0], unused);
  }

  lemma DataBlockShape(size: nat, salt: Bytes)
    requires |salt| < size
    ensures var db, padding := DataBlock(size, salt), size - |salt| - 1;
            (forall i :: 0 <= i < padding ==> db[i] == 0) && db[padding] == 1 && db[padding + 1..] == salt
  {
  }

  lemma IsDataBlock(db: Bytes, padding: nat)
    requires padding < |db| && (forall i :: 0 <= i < padding ==> db[i] == 0) && db[padding] == 1
    ensures db == DataBlock(|db|, db[padding + 1..])
  {
  }

  lemma ChecksDecide(em: Bytes, encodedBits: nat, messageHash: Bytes, params: PssParams, db: Bytes)
    requires Usable(params.messageHash, params.mgf1Hash) && params.messageHash.size > 0 && params.mgf1Hash.size > 0
    requires |em| == EncodedSize(encodedBits) && |em| >= params.messageHash.size + params.saltLength + 2
    requires IsUnmasked(em, encodedBits, params, db)
    ensures IsEncoding(em, encodedBits, messageHash, params) <==> Accepted(em, encodedBits, messageHash, params, db)
  {
    hide IsUnmasked;
    hide Accepted;
    hide Encoding;
    assert |db| == |em| - params.messageHash.size - 1 by { UnmaskedSize(em, encodedBits, params, db); }
    if Accepted(em, encodedBits, messageHash, params, db) {
      AcceptedIsEncoding(em, encodedBits, messageHash, params, db);
    }
    if IsEncoding(em, encodedBits, messageHash, params) {
      var s: Bytes :| |s| == params.saltLength && em == Encoding(encodedBits, messageHash, s, params);
      EncodingIsAccepted(em, encodedBits, messageHash, params, db, s);
    }
  }

  lemma UnmaskedSize(em: Bytes, encodedBits: nat, params: PssParams, db: Bytes)
    requires Usable(params.messageHash, params.mgf1Hash) && params.mgf1Hash.size > 0 && |em| >= params.messageHash.size + 2
    requires IsUnmasked(em, encodedBits, params, db)
    ensures |db| == |em| - params.messageHash.size - 1
  {
  }

  lemma AcceptedIsEncoding(em: Bytes, encodedBits: nat, messageHash: Bytes, params: PssParams, db: Bytes)
    requires Usable(params.messageHash, params.mgf1Hash) && params.messageHash.size > 0 && params.mgf1Hash.size > 0
    requires |em| == EncodedSize(encodedBits) && |em| >= params.messageHash.size + params.saltLength + 2
    requires IsUnmasked(em, encodedBits, params, db) && |db| == |em| - params.messageHash.size - 1
    requires Accepted(em, encodedBits, messageHash, params, db)
    ensures IsEncoding(em, encodedBits, messageHash, params)
  {
    hide MaskBlock;
    hide DataBlock;
    hide Mask;
    hide PssHash;
    hide Sized;
    hide DisallowedMask;
    hide FitsMask;
    hide IsEncoding;
    var size := |em| - params.messageHash.size - 1;
    var padding, unused := size - params.saltLength - 1, UnusedBits(encodedBits);
    var masked, hash, salt := em[..size], em[size..|em| - 1], db[padding + 1..];
    IsDataBlock(db, padding);
    MaskedByteFits(masked[0], unused);
    UnmaskOfMask(masked, Mask(params.mgf1Hash, hash, size), unused);
    assert em == masked + hash + [0xBC];
    SaltEncodes(em, encodedBits, messageHash, params, salt);
  }

  lemma SaltEncodes(em: Bytes, encodedBits: nat, messageHash: Bytes, params: PssParams, salt: Bytes)
    requires Usable(params.messageHash, params.mgf1Hash) && params.messageHash.size > 0 && params.mgf1Hash.size > 0
    requires |salt| == params.saltLength && EncodedSize(encodedBits) >= params.messageHash.size + |salt| + 2
    requires var hash, size := PssHash(params.messageHash, messageHash, salt), EncodedSize(encodedBits) - params.messageHash.size - 1;
             em == MaskBlock(DataBlock(size, salt), Mask(params.mgf1Hash, hash, size), UnusedBits(encodedBits)) + hash + [0xBC]
    ensures IsEncoding(em, encodedBits, messageHash, params)
  {
    hide MaskBlock;
    hide DataBlock;
    hide Mask;
    hide PssHash;
    assert em == Encoding(encodedBits, messageHash, salt, params);
  }

  lemma EncodingParts(em: Bytes, encodedBits: nat, messageHash: Bytes, params: PssParams, salt: Bytes)
    requires Usable(params.messageHash, params.mgf1Hash) && params.messageHash.size > 0 && params.mgf1Hash.size > 0
    requires |em| == EncodedSize(encodedBits) && |em| >= params.messageHash.size + |salt| + 2
    requires em == Encoding(encodedBits, messageHash, salt, params)
    ensures var size := |em| - params.messageHash.size - 1;
            var hash := PssHash(params.messageHash, messageHash, salt);
            && em[|em| - 1] == 0xBC && em[size..|em| - 1] == hash
            && em[..size] == MaskBlock(DataBlock(size, salt), Mask(params.mgf1Hash, hash, size), UnusedBits(encodedBits))
  {
    hide MaskBlock;
    hide DataBlock;
    hide Mask;
  }

  lemma EncodingIsAccepted(em: Bytes, encodedBits: nat, messageHash: Bytes, params: PssParams, db: Bytes, salt: Bytes)
    requires Usable(params.messageHash, params.mgf1Hash) && params.messageHash.size > 0 && params.mgf1Hash.size > 0
    requires |em| == EncodedSize(encodedBits) && |em| >= params.messageHash.size + params.saltLength + 2
    requires |salt| == params.saltLength && em == Encoding(encodedBits, messageHash, salt, params)
    requires IsUnmasked(em, encodedBits, params, db) && |db| == |em| - params.messageHash.size - 1
    ensures Accepted(em, encodedBits, messageHash, params, db)
  {
    hide Encoding;
    hide Mask;
    hide PssHash;
    hide Sized;
    hide MaskBlock;
    hide DataBlock;
    hide FitsMask;
    hide DisallowedMask;
    var size, unused := |em| - params.messageHash.size - 1, UnusedBits(encodedBits);
    var block, hash := DataBlock(size, salt), PssHash(params.messageHash, messageHash, salt);
    var mask := Mask(params.mgf1Hash, hash, size);
    EncodingParts(em, encodedBits, messageHash, params, salt);
    DataBlockFits(size, salt, unused);
    UnmaskOfMask(block, mask, unused);
    MaskBlockFits(block, mask, unused);
    MaskedByteFits(em[..size][0], unused);
    DataBlockShape(size, salt);
  }

  /** Encoding, then verifying: yes for every message hash and salt the encoder takes, whatever the length. */
  method EncodeThenVerify(encodedBits: nat, messageHash: Bytes, salt: Bytes, params: PssParams) returns (r: Result<bool>)
    requires Usable(params.messageHash, params.mgf1Hash)
    ensures params.messageHash.size == 0 || params.mgf1Hash.size == 0 ==> r == Err(UnsupportedAlgorithm)
    ensures params.messageHash.size > 0 && params.mgf1Hash.size > 0 ==>
              r == if |messageHash| == params.messageHash.size && |salt| == params.saltLength
                      && EncodedSize(encodedBits) >= params.messageHash.size + |salt| + 2
                   then Ok(true) else Err(InvalidArgument)
  {
    hide Encoding;
    hide Sized;
    var em := EmsaPssEncode(encodedBits, messageHash, salt, params);
    if em.Err? {
      return Err(em.error);
    }
    r := EmsaPssVerify(em.value, encodedBits, messageHash, params);
    assert r == Ok(true) by {
      assert em.value == Encoding(encodedBits, messageHash, salt, params);
    }
  }

  // ----- the length guard in 64 bits -----

  const SIZE_LIMIT: int := 0x1_0000_0000_0000_0000

  /** The guard as `size_t` arithmetic evaluates it. */
  predicate TooShortInSizeT(size: nat, hashSize: nat, saltLength: nat) {
    size < (hashSize + saltLength + 2) % SIZE_LIMIT
  }

  /** It is the guard meant if and only if the sum does not wrap, or wraps beyond the size. */
  lemma GuardExact(size: nat, hashSize: nat, saltLength: nat)
    requires size < SIZE_LIMIT && hashSize + 2 < SIZE_LIMIT && saltLength < SIZE_LIMIT
    ensures (TooShortInSizeT(size, hashSize, saltLength) <==> size < hashSize + saltLength + 2)
       <==> hashSize + saltLength + 2 < SIZE_LIMIT || size < hashSize + saltLength + 2 - SIZE_LIMIT
  {
    var sum := hashSize + saltLength + 2;
    if sum < SIZE_LIMIT {
      assert sum % SIZE_LIMIT == sum;
    } else {
      assert sum % SIZE_LIMIT == sum - SIZE_LIMIT;
    }
  }

  /** An input where the guards differ: SHA-256, a 256-byte encoding, and a salt length of 2^64 - 1. */
  lemma GuardWraps()
    ensures 256 < 32 + (SIZE_LIMIT - 1) + 2 && !TooShortInSizeT(256, 32, SIZE_LIMIT - 1)
  {
    assert (32 + (SIZE_LIMIT - 1) + 2) % SIZE_LIMIT == 33;
  }
}
