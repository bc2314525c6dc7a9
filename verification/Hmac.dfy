/** HMAC, `src/hmac.cpp` (section 2 of RFC 2104). */
module Hmac {
  import opened Sha2Spec
  import opened Sha2
  import opened Results
  import opened Chunks

  // ----- one hash context of either kind -----

  datatype HashContext = Narrow(narrow: Sha256Context) | Wide(wide: Sha512Context) {
    ghost function Footprint(): set<object> {
      if Narrow? then {narrow, narrow.buffer} else {wide, wide.buffer}
    }

    ghost predicate Valid()
      reads Footprint()
    {
      if Narrow? then narrow.Valid() else wide.Valid()
    }

    function Variant(): Sha {
      if Narrow? then narrow.sha else wide.sha
    }

    ghost function Message(): Bytes
      reads Footprint()
    {
      if Narrow? then narrow.message else wide.message
    }

    predicate Finalized()
      reads Footprint()
    {
      if Narrow? then narrow.finalized else wide.finalized
    }

    method Update(input: Bytes) returns (r: Result<()>)
      requires Valid()
      modifies Footprint()
      ensures Valid() && Finalized() == old(Finalized())
      ensures r == if Finalized() then Err(InvalidArgument) else Ok(())
      ensures Message() == if Finalized() then old(Message()) else old(Message()) + input
    {
      match this
      case Narrow(context) => r := context.Update(input);
      case Wide(context) => r := context.Update(input);
    }

    method Final() returns (r: Result<Bytes>)
      requires Valid()
      modifies Footprint()
      ensures Valid() && Finalized()
      ensures r == if old(Finalized()) then Err(InvalidArgument) else Ok(Hash(Variant(), old(Message())))
    {
      match this
      case Narrow(context) => r := context.Final();
      case Wide(context) => r := context.Final();
    }
  }

  method MakeHashContext(sha: Sha) returns (context: HashContext)
    ensures context.Valid() && fresh(context.Footprint()) && !context.Finalized()
    ensures context.Variant() == sha && context.Message() == []
  {
    hide Sha256Context.Valid;
    hide Sha512Context.Valid;
    if sha.algorithm == Sha256 {
      var c := new Sha256Context(sha.compress);
      assert sha == Sha(Sha256, sha.compress);
      context := Narrow(c);
    } else {
      var c := new Sha512Context(sha.compress);
      assert sha == Sha(Sha512, sha.compress);
      context := Wide(c);
    }
  }

  method HashOnce(sha: Sha, input: Bytes) returns (r: Result<Bytes>)
    ensures r == Ok(Hash(sha, input))
  {
    var context := MakeHashContext(sha);
    var ok := context.Update(input);
    assert [] + input == input;
    r := context.Final();
  }

  /** The hash of two pieces, fed one after the other. */
  method HashTwo(sha: Sha, first: Bytes, second: Bytes) returns (r: Result<Bytes>)
    ensures r == Ok(Hash(sha, first + second))
  {
    hide Hash;
    hide Sha256Context.Valid;
    hide Sha512Context.Valid;
    var context := MakeHashContext(sha);
    var ok := context.Update(first);
    ok := context.Update(second);
    assert [] + first + second == first + second;
    r := context.Final();
  }

  // ----- the specification -----

  /** Hashed if it is longer than a block, then zeros up to a block. */
  function NormalizedKey(sha: Sha, key: Bytes): Bytes {
    var short := if |key| > sha.BlockSize() then Hash(sha, key) else key;
    if |short| >= sha.BlockSize() then short[..sha.BlockSize()] else short + Zeros(sha.BlockSize() - |short|)
  }

  /** Every byte exclusive-ored with one value. */
  function Pad(key: Bytes, value: bv8): (r: Bytes)
    ensures |r| == |key|
  {
    seq(|key|, i requires 0 <= i < |key| => key[i] ^ value)
  }

  function KeyPad(sha: Sha, key: Bytes, value: bv8): Bytes {
    Pad(NormalizedKey(sha, key), value)
  }

  /** H(K xor opad || H(K xor ipad || m)). */
  function Mac(sha: Sha, key: Bytes, message: Bytes): Bytes {
    Hash(sha, KeyPad(sha, key, 0x5c) + Hash(sha, KeyPad(sha, key, 0x36) + message))
  }

  /** A digest is never longer than a block, so normalising a long key pads its hash and cuts nothing. */
  lemma NormalizedKeyIs(sha: Sha, key: Bytes)
    requires sha.KeepsWords()
    ensures |NormalizedKey(sha, key)| == sha.BlockSize()
    ensures |key| > sha.BlockSize() ==>
              |Hash(sha, key)| <= sha.BlockSize()
              && NormalizedKey(sha, key) == Hash(sha, key) + Zeros(sha.BlockSize() - |Hash(sha, key)|)
    ensures |key| <= sha.BlockSize() ==> NormalizedKey(sha, key) == key + Zeros(sha.BlockSize() - |key|)
  {
    HashSize(sha, key);
    hide Hash;
  }

  /** The code written out (section 2 of RFC 2104): with K the key, or the hash of one longer than a block,
      filled up with zeros, it is H(K xor 5c..5c || H(K xor 36..36 || m)). */
  lemma MacIs(sha: Sha, key: Bytes, message: Bytes, k: Bytes, inner: Bytes, outer: Bytes)
    requires sha.KeepsWords() && |k| == |inner| == |outer| == sha.BlockSize()
    requires var short := if |key| > sha.BlockSize() then Hash(sha, key) else key;
             |short| <= |k| && k[..|short|] == short && forall i :: |short| <= i < |k| ==> k[i] == 0
    requires forall i :: 0 <= i < |k| ==> inner[i] == k[i] ^ 0x36 && outer[i] == k[i] ^ 0x5c
    ensures Mac(sha, key, message) == Hash(sha, outer + Hash(sha, inner + message))
  {
    hide Hash;
    NormalizedKeyIs(sha, key);
    var normalized := NormalizedKey(sha, key);
    assert k == normalized;
    hide NormalizedKey;
    assert outer == KeyPad(sha, key, 0x5c);
    assert inner == KeyPad(sha, key, 0x36);
  }

  // ----- the context -----

  class HmacContext {
    const sha: Sha
    var outerPad: Bytes
    var inner: HashContext
    var initialized: bool
    var finalized: bool

    /** The key and what has been authenticated so far. */
    ghost var key: Bytes
    ghost var message: Bytes

    ghost predicate Valid()
      reads this, inner.Footprint()
    {
      && initialized && inner.Valid() && inner.Variant() == sha
      && this !in inner.Footprint()
      && outerPad == KeyPad(sha, key, 0x5c)
      && (!finalized ==> !inner.Finalized() && inner.Message() == KeyPad(sha, key, 0x36) + message)
    }

    constructor (sha: Sha, key: Bytes)
      ensures Valid() && fresh(this) && fresh(inner.Footprint())
      ensures !finalized && this.sha == sha && this.key == key && message == []
    {
      hide Hash;
      hide Pad;
      hide Zeros;
      hide Sha256Context.Valid;
      hide Sha512Context.Valid;
      this.sha := sha;
      this.key := key;
      message := [];
      finalized := false;
      initialized := false;
      var size := sha.BlockSize();
      var normalizedKey := key;
      if |key| > size {
        var hashedKey := HashOnce(sha, key);
        normalizedKey := hashedKey.value;
      }
      normalizedKey := Resize(normalizedKey, size);
      var innerPad, outer := FillPads(normalizedKey);
      outerPad := outer;
      var context := MakeHashContext(sha);
      inner := context;
      new;
      var ok := context.Update(innerPad);
      initialized := ok.Ok?;
      assert [] + innerPad == innerPad + [];
    }

    /** Feeds the inner hash; refused once finished. */
    method Update(input: Bytes) returns (r: Result<()>)
      requires Valid()
      modifies this, inner.Footprint()
      ensures Valid() && inner == old(inner) && finalized == old(finalized) && key == old(key)
      ensures r == if finalized then Err(InvalidArgument) else Ok(())
      ensures message == if finalized then old(message) else old(message) + input
    {
      hide KeyPad;
      hide Sha256Context.Valid;
      hide Sha512Context.Valid;
      if finalized {
        return Err(InvalidArgument);
      }
      if !initialized {
        return Err(ProviderError);
      }
      r := inner.Update(input);
      assert (KeyPad(sha, key, 0x36) + message) + input == KeyPad(sha, key, 0x36) + (message + input);
      message := message + input;
    }

    /** Finishes once, with the code of everything fed in. */
    method Final() returns (r: Result<Bytes>)
      requires Valid()
      modifies this, inner.Footprint()
      ensures Valid() && finalized && key == old(key) && message == old(message)
      ensures r == if old(finalized) then Err(InvalidArgument) else Ok(Mac(sha, key, message))
    {
      hide KeyPad;
      hide Hash;
      hide Sha256Context.Valid;
      hide Sha512Context.Valid;
      if finalized {
        return Err(InvalidArgument);
      }
      if !initialized {
        return Err(ProviderError);
      }
      finalized := true;
      var innerDigest := inner.Final();
      r := HashTwo(sha, outerPad, innerDigest.value);
    }
  }

  /** `resize`: cut or filled up with zeros. */
  method Resize(bytes: Bytes, size: nat) returns (r: Bytes)
    ensures r == if |bytes| >= size then bytes[..size] else bytes + Zeros(size - |bytes|)
  {
    if |bytes| >= size {
      return bytes[..size];
    }
    r := bytes;
    while |r| < size
      invariant |bytes| <= |r| <= size && r == bytes + Zeros(|r| - |bytes|)
      decreases size - |r|
    {
      r := r + [0];
    }
  }

  method FillPads(key: Bytes) returns (innerPad: Bytes, outerPad: Bytes)
    ensures innerPad == Pad(key, 0x36) && outerPad == Pad(key, 0x5c)
  {
    var inner, outer := new bv8[|key|](_ => 0), new bv8[|key|](_ => 0);
    for i := 0 to |key|
      invariant forall k :: 0 <= k < i ==> inner[k] == key[k] ^ 0x36 && outer[k] == key[k] ^ 0x5c
    {
      inner[i] := key[i] ^ 0x36;
      outer[i] := key[i] ^ 0x5c;
    }
    innerPad, outerPad := inner[..], outer[..];
  }

  /** However the message is cut into updates, final returns the code of the whole. */
  method MacChunks(sha: Sha, key: Bytes, chunks: seq<Bytes>) returns (r: Result<Bytes>)
    ensures r == Ok(Mac(sha, key, Flatten(chunks)))
  {
    hide Mac;
    hide KeyPad;
    hide Sha256Context.Valid;
    hide Sha512Context.Valid;
    var context := new HmacContext(sha, key);
    for i := 0 to |chunks|
      invariant fresh(context) && fresh(context.inner.Footprint()) && context.Valid() && !context.finalized
      invariant context.sha == sha && context.key == key && context.message == Flatten(chunks[..i])
    {
      var ok := context.Update(chunks[i]);
      assert chunks[..i + 1][..i] == chunks[..i];
    }
    assert chunks[..|chunks|] == chunks;
    r := context.Final();
  }
}
