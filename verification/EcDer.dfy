/** DER for ECDSA signatures, `src/ec_der.cpp`: the reader, minimal integers, and the writer
    (sections 8.1.3, 8.3 and 10.1 of X.690). */
module EcDer {
  import opened NumberTheory
  import opened Digits
  import opened Results

  const DER_SEQUENCE: Byte := 0x30
  const DER_INTEGER: Byte := 0x02

  /** One more than the largest `size_t`; every byte range in memory is shorter. */
  const SIZE_LIMIT: int := 0x1_0000_0000_0000_0000

  // ----- the encodings -----

  /** The base-256 digits of a number, none for zero. */
  function Octets(n: nat): seq<Byte> {
    if n == 0 then [] else Octets(n / 256) + [n % 256]
  }

  lemma {:induction false} OctetsValue(n: nat)
    ensures Be(Octets(n)) == n && (n > 0 ==> |Octets(n)| > 0 && Octets(n)[0] != 0)
    decreases n
  {
    if n > 0 {
      OctetsValue(n / 256);
      BeSnoc(Octets(n / 256), n % 256);
      assert n / 256 == 0 ==> Octets(n / 256) == [];
    }
  }

  lemma OctetsCount(n: nat)
    requires n < SIZE_LIMIT
    ensures |Octets(n)| <= 8
  {
    OctetsValue(n);
    if |Octets(n)| > 8 {
      BeLeading(Octets(n));
      PowMonotone(256, 8, |Octets(n)| - 1);
      EightBytes();
    }
  }

  lemma EightBytes()
    ensures Pow(256, 8) == SIZE_LIMIT
  {
    PowAdd(256, 4, 4);
    assert Pow(256, 4) == 0x1_0000_0000;
  }

  /** Definite length, short below 128 and otherwise in the fewest octets. */
  function LengthBytes(n: nat): seq<Byte>
    requires n < SIZE_LIMIT
  {
    OctetsCount(n);
    if n < 128 then [n] else [0x80 + |Octets(n)|] + Octets(n)
  }

  function Tlv(tag: Byte, content: seq<Byte>): seq<Byte>
    requires |content| < SIZE_LIMIT
  {
    [tag] + LengthBytes(|content|) + content
  }

  /** The content octets of a non-negative INTEGER: no superfluous zero, and one zero before a set top bit. */
  function IntegerContent(value: seq<Byte>): (c: seq<Byte>)
    ensures |c| <= |value| + 1
  {
    var v := StripZeros(value);
    if v == [] then [0] else if v[0] >= 0x80 then [0] + v else v
  }

  /** The form in which numbers come out of the reader: no leading zero, one zero for zero. */
  predicate IsMinimal(value: seq<Byte>) {
    |value| > 0 && (value[0] == 0 ==> |value| == 1)
  }

  function Minimal(value: seq<Byte>): (v: seq<Byte>)
    ensures IsMinimal(v)
  {
    var v := StripZeros(value);
    if v == [] then [0] else v
  }

  datatype Signature = Signature(r: seq<Byte>, s: seq<Byte>)

  function BodyOf(sig: Signature): seq<Byte>
    requires |sig.r| + 1 < SIZE_LIMIT && |sig.s| + 1 < SIZE_LIMIT
  {
    Tlv(DER_INTEGER, IntegerContent(sig.r)) + Tlv(DER_INTEGER, IntegerContent(sig.s))
  }

  /** The signature fits in memory when encoded. */
  predicate Encodable(sig: Signature) {
    |sig.r| + 1 < SIZE_LIMIT && |sig.s| + 1 < SIZE_LIMIT && |BodyOf(sig)| < SIZE_LIMIT
  }

  function Encoded(sig: Signature): seq<Byte>
    requires Encodable(sig)
  {
    Tlv(DER_SEQUENCE, BodyOf(sig))
  }

  predicate MinimalPair(sig: Signature) {
    IsMinimal(sig.r) && IsMinimal(sig.s)
  }

  // ----- the encodings can be read back in one way only -----

  lemma LengthParts(n: nat, x: seq<Byte>)
    requires n < SIZE_LIMIT
    ensures var a, count := LengthBytes(n) + x, |Octets(n)|;
            && Be(Octets(n)) == n
            && (n < 128 ==> a[0] == n && a[1..] == x)
            && (n >= 128 ==> 0 < count <= 8 && |a| == 1 + count + |x| && a[0] == 0x80 + count)
            && (n >= 128 ==> a[1..1 + count] == Octets(n) && a[1 + count..] == x)
  {
    OctetsCount(n);
    OctetsValue(n);
    hide Octets;
    hide Be;
  }

  lemma LengthPrefixFree(m: nat, n: nat, x: seq<Byte>, y: seq<Byte>)
    requires m < SIZE_LIMIT && n < SIZE_LIMIT
    requires LengthBytes(m) + x == LengthBytes(n) + y
    ensures m == n && x == y
  {
    hide *;
    LengthParts(m, x);
    LengthParts(n, y);
  }

  lemma TlvPrefixFree(tag: Byte, c: seq<Byte>, d: seq<Byte>, x: seq<Byte>, y: seq<Byte>)
    requires |c| < SIZE_LIMIT && |d| < SIZE_LIMIT && Tlv(tag, c) + x == Tlv(tag, d) + y
    ensures c == d && x == y
  {
    hide LengthBytes;
    var a, b := Tlv(tag, c) + x, Tlv(tag, d) + y;
    assert a[1..] == LengthBytes(|c|) + (c + x);
    assert b[1..] == LengthBytes(|d|) + (d + y);
    LengthPrefixFree(|c|, |d|, c + x, d + y);
    assert (c + x)[..|c|] == c && (d + y)[..|d|] == d;
    assert (c + x)[|c|..] == x && (d + y)[|d|..] == y;
  }

  /** What the reader takes for an integer. */
  predicate IsIntegerContent(c: seq<Byte>) {
    |c| > 0 && c[0] < 0x80 && (|c| > 1 && c[0] == 0 ==> c[1] >= 0x80)
  }

  function IntegerValue(c: seq<Byte>): seq<Byte> {
    if |c| > 1 && c[0] == 0 then c[1..] else c
  }

  lemma StripOfStripped(v: seq<Byte>)
    requires |v| > 0 ==> v[0] != 0
    ensures StripZeros(v) == v
  {
  }

  /** Content octets and minimal numbers correspond one to one. */
  lemma ContentOfValue(v: seq<Byte>)
    ensures IsIntegerContent(IntegerContent(v)) && IntegerValue(IntegerContent(v)) == Minimal(v)
  {
    hide StripZeros;
    var s := StripZeros(v);
    assert s != [] && s[0] >= 0x80 ==> ([0] + s)[1..] == s;
  }

  lemma ValueOfContent(c: seq<Byte>)
    requires IsIntegerContent(c)
    ensures IsMinimal(IntegerValue(c)) && IntegerContent(IntegerValue(c)) == c
  {
    var v := IntegerValue(c);
    if c == [0] {
      assert c[1..] == [];
    } else {
      StripOfStripped(v);
      assert c[0] == 0 ==> c == [0] + c[1..];
    }
  }

  /** Encoding first makes a number minimal. */
  lemma ContentOfMinimal(v: seq<Byte>)
    ensures IntegerContent(Minimal(v)) == IntegerContent(v)
  {
    var s := StripZeros(v);
    StripOfStripped(s);
    if s == [] {
      assert [0][1..] == [];
    }
  }

  /** Different pairs of minimal numbers have different encodings. */
  lemma EncodedInjective(a: Signature, b: Signature)
    requires Encodable(a) && Encodable(b) && MinimalPair(a) && MinimalPair(b) && Encoded(a) == Encoded(b)
    ensures a == b
  {
    hide Tlv;
    hide IntegerContent;
    TlvPrefixFree(DER_SEQUENCE, BodyOf(a), BodyOf(b), [], []) by {
      assert Encoded(a) + [] == Encoded(a) && Encoded(b) + [] == Encoded(b);
    }
    var rest, rest' := Tlv(DER_INTEGER, IntegerContent(a.s)), Tlv(DER_INTEGER, IntegerContent(b.s));
    TlvPrefixFree(DER_INTEGER, IntegerContent(a.r), IntegerContent(b.r), rest, rest');
    assert rest + [] == rest && rest' + [] == rest';
    TlvPrefixFree(DER_INTEGER, IntegerContent(a.s), IntegerContent(b.s), [], []);
    MinimalByContent(a.r, b.r);
    MinimalByContent(a.s, b.s);
  }

  lemma MinimalByContent(v: seq<Byte>, w: seq<Byte>)
    requires IsMinimal(v) && IsMinimal(w) && IntegerContent(v) == IntegerContent(w)
    ensures v == w
  {
    ContentOfValue(v);
    ContentOfValue(w);
    MinimalOfMinimal(v);
    MinimalOfMinimal(w);
  }

  lemma MinimalOfMinimal(v: seq<Byte>)
    requires IsMinimal(v)
    ensures Minimal(v) == v
  {
    if v[0] == 0 {
      assert v == [0] && v[1..] == [];
    }
  }

  /** The content is the shortest string of the number whose top bit is clear. */
  lemma ContentMeaning(v: seq<Byte>)
    ensures var c := IntegerContent(v);
            |c| > 0 && c[0] < 0x80 && Be(c) == Be(v) && (|c| > 1 && c[0] == 0 ==> c[1] >= 0x80)
  {
    hide Be;
    BeStripZeros(v);
    hide StripZeros;
    BeOne(0);
    var s := StripZeros(v);
    if s == [] {
      EmptyString(s);
    } else if s[0] >= 0x80 {
      BeCons(0, s);
    }
  }

  lemma EmptyString(s: seq<Byte>)
    requires s == []
    ensures Be(s) == 0
  {
  }

  /** A signature of two numbers of at most 32 bytes, octet by octet. */
  lemma ShortSignature(sig: Signature)
    requires |sig.r| <= 32 && |sig.s| <= 32
    ensures var r, s := IntegerContent(sig.r), IntegerContent(sig.s);
            Encodable(sig) && |r| <= 33 && |s| <= 33
            && Encoded(sig) == [0x30, |r| + |s| + 4, 0x02, |r|] + r + [0x02, |s|] + s
  {
    hide IntegerContent;
    hide Octets;
    var r, s := IntegerContent(sig.r), IntegerContent(sig.s);
    assert BodyOf(sig) == [0x02, |r|] + r + [0x02, |s|] + s;
  }

  // ----- the reader -----

  ghost predicate NoLengthAt(s: seq<Byte>) {
    forall n: nat :: n < SIZE_LIMIT ==> !(LengthBytes(n) <= s)
  }

  ghost predicate NoElementAt(tag: Byte, s: seq<Byte>) {
    forall c: seq<Byte> :: |c| < SIZE_LIMIT ==> !(Tlv(tag, c) <= s)
  }

  /** The octets taken from the front of s in search of a length, found or not. */
  function LengthConsumed(s: seq<Byte>): nat {
    if s == [] then 0
    else if s[0] <= 0x80 || s[0] > 0x88 || |s| <= s[0] - 0x80 || s[1] == 0 then 1
    else 1 + s[0] - 0x80
  }

  /** The octets taken in search of an element of the tag when there is none. */
  function HeaderConsumed(tag: Byte, s: seq<Byte>): nat {
    if s == [] || s[0] != tag then 0 else 1 + LengthConsumed(s[1..])
  }

  /** In full: nothing of an empty input; the first octet alone when it is a complete length or no long form
      follows; else all octets of the long form, whether or not it is minimal. */
  lemma ConsumedMeans(tag: Byte, s: seq<Byte>)
    ensures LengthConsumed([]) == 0 && HeaderConsumed(tag, []) == 0
    ensures s != [] ==>
              LengthConsumed(s) == if 0x80 < s[0] <= 0x88 && |s| > s[0] - 0x80 && s[1] != 0 then 1 + (s[0] - 0x80) else 1
    ensures HeaderConsumed(tag, [tag] + s) == 1 + LengthConsumed(s)
    ensures s != [] && s[0] != tag ==> HeaderConsumed(tag, s) == 0
  {
  }

  ghost predicate IsElement(tag: Byte, before: seq<Byte>, after: seq<Byte>) {
    exists content: seq<Byte> :: |content| < SIZE_LIMIT && before == Tlv(tag, content) + after
  }

  class DerReader {
    const data: seq<Byte>
    var offset: nat

    ghost predicate Valid()
      reads this
    {
      offset <= |data| < SIZE_LIMIT
    }

    /** What has not been read yet. */
    ghost function Rest(): seq<Byte>
      reads this
      requires Valid()
    {
      data[offset..]
    }

    constructor (data: seq<Byte>)
      requires |data| < SIZE_LIMIT
      ensures Valid() && Rest() == data && this.data == data
    {
      this.data := data;
      offset := 0;
    }

    predicate Empty()
      reads this
      requires Valid()
      ensures Empty() <==> Rest() == []
    {
      offset == |data|
    }

    /** Takes a length; fails exactly when the input does not start with one. */
    method ReadLength() returns (r: Result<nat>)
      requires Valid()
      modifies this`offset
      ensures Valid()
      ensures r.Ok? ==> r.value < SIZE_LIMIT && old(Rest()) == LengthBytes(r.value) + Rest()
      ensures r.Err? ==> NoLengthAt(old(Rest()))
      ensures offset == old(offset) + LengthConsumed(old(Rest()))
    {
      ghost var rest := Rest();
      hide LengthBytes;
      hide NoLengthAt;
      hide Be;
      BadLength(rest);
      if offset >= |data| {
        return Err(InvalidKey);
      }
      var first := data[offset];
      offset := offset + 1;
      assert rest == [first] + Rest();
      if first < 0x80 {
        ShortForm(first);
        return Ok(first);
      }
      r := ReadLongForm(first, rest);
    }

    /** The octets of a long form, after the first one. */
    method ReadLongForm(first: Byte, ghost s: seq<Byte>) returns (r: Result<nat>)
      requires Valid() && first >= 0x80 && s == [first] + Rest()
      modifies this`offset
      ensures Valid()
      ensures r.Ok? ==> r.value < SIZE_LIMIT && s == LengthBytes(r.value) + Rest()
      ensures r.Err? ==> NoLengthAt(s)
      ensures offset == old(offset) + LengthConsumed(s) - 1
    {
      hide LengthBytes;
      hide NoLengthAt;
      hide Be;
      BadLength(s);
      var lengthOctets := first - 0x80;
      if lengthOctets == 0 || lengthOctets > 8 || lengthOctets > |data| - offset {
        return Err(InvalidKey);
      }
      if data[offset] == 0 {
        assert s[1] == 0;
        return Err(InvalidKey);
      }
      ghost var start := offset;
      var length := AccumulateLength(lengthOctets);
      ghost var octets := data[start..offset];
      assert octets == s[1..1 + lengthOctets];
      if length < 128 {
        return Err(InvalidKey);
      }
      LongForm(octets);
      assert s == [first] + octets + Rest();
      r := Ok(length);
    }

    /** The octets as one number; eight of them cannot overflow, so the size check never fires. */
    method AccumulateLength(lengthOctets: nat) returns (length: nat)
      requires Valid() && 0 < lengthOctets <= 8 && lengthOctets <= |data| - offset
      modifies this`offset
      ensures Valid() && offset == old(offset) + lengthOctets
      ensures length == Be(data[old(offset)..offset]) < SIZE_LIMIT
    {
      ghost var start := offset;
      length := 0;
      EightBytes();
      for i := 0 to lengthOctets
        invariant offset == start + i && length == Be(data[start..offset])
      {
        BeBound(data[start..offset]);
        PowMonotone(256, i, 7);
        assert Pow(256, 8) == 256 * Pow(256, 7);
        if length > 0xFF_FFFF_FFFF_FFFF {
          assert false;
        }
        assert data[start..offset + 1] == data[start..offset] + [data[offset]];
        BeSnoc(data[start..offset], data[offset]);
        length := 0x100 * length + data[offset];
        offset := offset + 1;
      }
      BeBound(data[start..offset]);
      PowMonotone(256, lengthOctets, 8);
    }

    /** Takes the tag if it is the next octet. */
    method TakeTag(tag: Byte) returns (found: bool)
      requires Valid()
      modifies this`offset
      ensures Valid()
      ensures found ==> offset > 0 && old(Rest()) == [tag] + Rest()
      ensures !found ==> offset == old(offset) && (old(Rest()) == [] || old(Rest())[0] != tag)
    {
      found := offset < |data| && data[offset] == tag;
      if found {
        offset := offset + 1;
      }
    }

    /** Takes one element of the given tag; fails exactly when the input does not start with one. */
    method Read(tag: Byte) returns (r: Result<seq<Byte>>)
      requires Valid()
      modifies this`offset
      ensures Valid()
      ensures r.Ok? ==> |r.value| + 1 < SIZE_LIMIT && old(Rest()) == Tlv(tag, r.value) + Rest()
      ensures r.Err? ==> NoElementAt(tag, old(Rest())) && offset == old(offset) + HeaderConsumed(tag, old(Rest()))
    {
      hide HeaderConsumed;
      hide LengthConsumed;
      hide LengthBytes;
      hide Tlv;
      hide NoElementAt;
      hide NoLengthAt;
      ghost var rest := Rest();
      WrongTag(tag, rest);
      var found := TakeTag(tag);
      HeaderCases(tag, rest, Rest());
      if !found {
        return Err(InvalidKey);
      }
      r := ReadContent(tag, rest);
    }

    /** The length and the content of the element whose tag has been taken. */
    method ReadContent(tag: Byte, ghost element: seq<Byte>) returns (r: Result<seq<Byte>>)
      requires Valid() && offset > 0 && element == [tag] + Rest()
      modifies this`offset
      ensures Valid()
      ensures r.Ok? ==> |r.value| + 1 < SIZE_LIMIT && element == Tlv(tag, r.value) + Rest()
      ensures r.Err? ==> NoElementAt(tag, element) && offset == old(offset) + LengthConsumed(old(Rest()))
    {
      hide LengthConsumed;
      hide LengthBytes;
      hide Tlv;
      hide NoElementAt;
      hide NoLengthAt;
      ghost var tail := Rest();
      var length := ReadLength();
      if length.IsFailure() {
        NoLength(tag, element, tail);
        return length.PropagateFailure();
      }
      ghost var after := Rest();
      if length.value > |data| - offset {
        OnlyLength(tag, element, tail, length.value, after);
        return Err(InvalidKey);
      }
      var content := data[offset..offset + length.value];
      offset := offset + length.value;
      TlvParts(tag, content, after, Rest());
      r := Ok(content);
    }
  }

  lemma HeaderCases(tag: Byte, rest: seq<Byte>, tail: seq<Byte>)
    ensures rest == [] || rest[0] != tag ==> HeaderConsumed(tag, rest) == 0
    ensures rest == [tag] + tail ==> HeaderConsumed(tag, rest) == 1 + LengthConsumed(tail)
  {
    hide LengthConsumed;
    if rest == [tag] + tail {
      assert rest[1..] == tail;
    }
  }

  lemma WrongTag(tag: Byte, rest: seq<Byte>)
    ensures |rest| == 0 || rest[0] != tag ==> NoElementAt(tag, rest)
  {
    hide LengthBytes;
    forall c: seq<Byte> | |c| < SIZE_LIMIT && Tlv(tag, c) <= rest
      ensures |rest| > 0 && rest[0] == tag
    {
      assert Tlv(tag, c)[0] == rest[0];
    }
  }

  lemma TlvPrefix(tag: Byte, rest: seq<Byte>, tail: seq<Byte>, c: seq<Byte>)
    requires rest == [tag] + tail && |c| < SIZE_LIMIT && Tlv(tag, c) <= rest
    ensures LengthBytes(|c|) + c <= tail
  {
    hide LengthBytes;
    assert Tlv(tag, c)[1..] == LengthBytes(|c|) + c;
    assert rest[1..] == tail;
  }

  lemma NoLength(tag: Byte, rest: seq<Byte>, tail: seq<Byte>)
    requires rest == [tag] + tail && NoLengthAt(tail)
    ensures NoElementAt(tag, rest)
  {
    hide LengthBytes;
    hide Tlv;
    forall c: seq<Byte> | |c| < SIZE_LIMIT
      ensures !(Tlv(tag, c) <= rest)
    {
      assert LengthBytes(|c|) <= LengthBytes(|c|) + c;
      if Tlv(tag, c) <= rest {
        TlvPrefix(tag, rest, tail, c);
      }
    }
  }

  lemma TlvParts(tag: Byte, content: seq<Byte>, after: seq<Byte>, rest: seq<Byte>)
    requires |content| < SIZE_LIMIT && after == content + rest
    ensures [tag] + (LengthBytes(|content|) + after) == Tlv(tag, content) + rest
  {
  }

  lemma ShortForm(first: Byte)
    requires first < 0x80
    ensures LengthBytes(first) == [first]
  {
  }

  /** Where no length starts: no octet, a wrong octet count, a leading zero, or less than 128. */
  lemma BadLength(s: seq<Byte>)
    ensures s == [] ==> NoLengthAt(s)
    ensures s != [] && s[0] >= 0x80 && !IsLongForm(s) ==> NoLengthAt(s)
  {
    forall n: nat | n < SIZE_LIMIT && LengthBytes(n) <= s
      ensures s != [] && (s[0] >= 0x80 ==> IsLongForm(s))
    {
      LengthParts(n, s[|LengthBytes(n)|..]);
      assert s == LengthBytes(n) + s[|LengthBytes(n)|..];
      OctetsValue(n);
      hide LengthBytes;
      hide Octets;
      hide Be;
      if s[0] >= 0x80 {
        assert s[1..1 + |Octets(n)|][0] == s[1];
      }
    }
  }

  predicate IsLongForm(s: seq<Byte>)
    requires |s| > 0 && s[0] >= 0x80
  {
    var count := s[0] - 0x80;
    0 < count <= 8 && count < |s| && s[1] != 0 && Be(s[1..1 + count]) >= 128
  }

  lemma LongForm(octets: seq<Byte>)
    requires 0 < |octets| <= 8 && octets[0] != 0 && 128 <= Be(octets) < SIZE_LIMIT
    ensures LengthBytes(Be(octets)) == [0x80 + |octets|] + octets
  {
    OctetsValue(Be(octets));
    StripZerosUnique(octets, Octets(Be(octets)));
  }

  lemma OnlyLength(tag: Byte, rest: seq<Byte>, tail: seq<Byte>, n: nat, after: seq<Byte>)
    requires rest == [tag] + tail && n < SIZE_LIMIT && tail == LengthBytes(n) + after && n > |after|
    ensures NoElementAt(tag, rest)
  {
    hide LengthBytes;
    hide Tlv;
    forall c: seq<Byte> | |c| < SIZE_LIMIT
      ensures !(Tlv(tag, c) <= rest)
    {
      if Tlv(tag, c) <= rest {
        TlvPrefix(tag, rest, tail, c);
        var y := tail[|LengthBytes(|c|)|..];
        assert tail == LengthBytes(|c|) + y;
        LengthPrefixFree(n, |c|, after, y);
      }
    }
  }

  // ----- integers and signatures -----

  ghost predicate NoIntegerAt(s: seq<Byte>) {
    forall v: seq<Byte> :: |v| + 1 < SIZE_LIMIT && IsMinimal(v) ==> !(Tlv(DER_INTEGER, IntegerContent(v)) <= s)
  }

  /** Takes one non-negative minimal INTEGER; fails exactly when the input does not start with one. */
  method ReadInteger(reader: DerReader) returns (r: Result<seq<Byte>>)
    requires reader.Valid()
    modifies reader`offset
    ensures reader.Valid()
    ensures r.Ok? ==> IsMinimal(r.value) && |r.value| + 1 < SIZE_LIMIT
    ensures r.Ok? ==> old(reader.Rest()) == Tlv(DER_INTEGER, IntegerContent(r.value)) + reader.Rest()
    ensures r.Err? ==> NoIntegerAt(old(reader.Rest()))
    ensures r.Err? ==> reader.offset == old(reader.offset) + HeaderConsumed(DER_INTEGER, old(reader.Rest()))
                       || IsElement(DER_INTEGER, old(reader.Rest()), reader.Rest())
  {
    hide HeaderConsumed;
    hide Tlv;
    hide IntegerContent;
    hide NoIntegerAt;
    hide NoElementAt;
    ghost var rest := reader.Rest();
    var value := reader.Read(DER_INTEGER);
    if value.IsFailure() {
      NoElementNoInteger(rest);
      return value.PropagateFailure();
    }
    var content := value.value;
    OnlyElement(content, rest, reader.Rest());
    assert IsElement(DER_INTEGER, rest, reader.Rest());
    if |content| == 0 {
      return Err(InvalidKey);
    }
    if content[0] >= 0x80 {
      return Err(InvalidKey);
    }
    if |content| > 1 && content[0] == 0 {
      if content[1] < 0x80 {
        return Err(InvalidKey);
      }
      ValueOfContent(content);
      return Ok(content[1..]);
    }
    ValueOfContent(content);
    r := Ok(content);
  }

  lemma NoElementNoInteger(s: seq<Byte>)
    requires NoElementAt(DER_INTEGER, s)
    ensures NoIntegerAt(s)
  {
    hide Tlv;
    hide IntegerContent;
  }

  /** When the element found is not the content of an integer, no integer is there. */
  lemma OnlyElement(content: seq<Byte>, rest: seq<Byte>, after: seq<Byte>)
    requires |content| < SIZE_LIMIT && rest == Tlv(DER_INTEGER, content) + after
    ensures !IsIntegerContent(content) ==> NoIntegerAt(rest)
  {
    hide Tlv;
    hide IntegerContent;
    forall v: seq<Byte> | |v| + 1 < SIZE_LIMIT && IsMinimal(v) && Tlv(DER_INTEGER, IntegerContent(v)) <= rest
      ensures IsIntegerContent(content)
    {
      var t := Tlv(DER_INTEGER, IntegerContent(v));
      assert rest == t + rest[|t|..];
      TlvPrefixFree(DER_INTEGER, content, IntegerContent(v), after, rest[|t|..]);
      ContentOfValue(v);
    }
  }

  /** Everything else fails, and what comes back is the pair the string encodes. */
  method ParseSignature(der: seq<Byte>) returns (r: Result<Signature>)
    requires |der| < SIZE_LIMIT
    ensures r.Ok? ==> MinimalPair(r.value) && Encodable(r.value) && der == Encoded(r.value)
    ensures r.Err? ==> NotAnEncoding(der)
  {
    hide Tlv;
    hide IntegerContent;
    hide NotAnEncoding;
    hide NotABody;
    hide NotTheLast;
    hide NoElementAt;
    hide NoIntegerAt;
    hide Encoded;
    hide BodyOf;
    hide IsMinimal;
    var reader := new DerReader(der);
    var sequence := reader.Read(DER_SEQUENCE);
    if sequence.IsFailure() {
      NoSequence(der);
      return sequence.PropagateFailure();
    }
    var body := sequence.value;
    OnlyBody(der, body, reader.Rest());
    if !reader.Empty() {
      return Err(InvalidKey);
    }
    var signature := new DerReader(body);
    var rInteger := ReadInteger(signature);
    if rInteger.IsFailure() {
      return rInteger.PropagateFailure();
    }
    ghost var middle := signature.Rest();
    var sInteger := ReadInteger(signature);
    OnlyPair(body, rInteger.value, middle);
    if sInteger.IsFailure() {
      return sInteger.PropagateFailure();
    }
    LastInteger(middle, sInteger.value, signature.Rest());
    if !signature.Empty() {
      return Err(InvalidKey);
    }
    r := Ok(Signature(rInteger.value, sInteger.value));
    IsEncoded(der, body, middle, r.value);
  }

  lemma IsEncoded(der: seq<Byte>, body: seq<Byte>, middle: seq<Byte>, sig: Signature)
    requires |body| < SIZE_LIMIT && der == Tlv(DER_SEQUENCE, body) + []
    requires |sig.r| + 1 < SIZE_LIMIT && body == Tlv(DER_INTEGER, IntegerContent(sig.r)) + middle
    requires |sig.s| + 1 < SIZE_LIMIT && middle == Tlv(DER_INTEGER, IntegerContent(sig.s)) + []
    ensures Encodable(sig) && der == Encoded(sig)
  {
    hide Tlv;
    hide IntegerContent;
    var last, whole := Tlv(DER_INTEGER, IntegerContent(sig.s)), Tlv(DER_SEQUENCE, body);
    assert last + [] == last && whole + [] == whole;
    assert body == BodyOf(sig);
  }

  /** No pair of numbers encodes to this string. */
  ghost predicate NotAnEncoding(der: seq<Byte>) {
    forall sig :: MinimalPair(sig) && Encodable(sig) ==> der != Encoded(sig)
  }

  ghost predicate NotABody(body: seq<Byte>) {
    forall sig :: MinimalPair(sig) && Encodable(sig) ==> body != BodyOf(sig)
  }

  lemma NoSequence(der: seq<Byte>)
    requires NoElementAt(DER_SEQUENCE, der)
    ensures NotAnEncoding(der)
  {
    hide BodyOf;
    hide Tlv;
  }

  lemma OnlyBody(der: seq<Byte>, body: seq<Byte>, rest: seq<Byte>)
    requires |body| < SIZE_LIMIT && der == Tlv(DER_SEQUENCE, body) + rest
    ensures rest != [] || NotABody(body) ==> NotAnEncoding(der)
    ensures NoIntegerAt(body) ==> NotABody(body)
  {
    hide Tlv;
    hide IntegerContent;
    forall sig | MinimalPair(sig) && Encodable(sig) && der == Encoded(sig)
      ensures rest == [] && body == BodyOf(sig)
    {
      assert der == Tlv(DER_SEQUENCE, BodyOf(sig)) + [];
      TlvPrefixFree(DER_SEQUENCE, body, BodyOf(sig), rest, []);
    }
  }

  lemma OnlyPair(body: seq<Byte>, r: seq<Byte>, middle: seq<Byte>)
    requires |r| + 1 < SIZE_LIMIT && body == Tlv(DER_INTEGER, IntegerContent(r)) + middle
    ensures NotTheLast(middle) ==> NotABody(body)
    ensures NoIntegerAt(middle) ==> NotTheLast(middle)
  {
    hide Tlv;
    hide IntegerContent;
    forall sig | MinimalPair(sig) && Encodable(sig) && body == BodyOf(sig)
      ensures middle == Tlv(DER_INTEGER, IntegerContent(sig.s))
    {
      TlvPrefixFree(DER_INTEGER, IntegerContent(r), IntegerContent(sig.r), middle,
                    Tlv(DER_INTEGER, IntegerContent(sig.s)));
    }
  }

  ghost predicate NotTheLast(middle: seq<Byte>) {
    forall s: seq<Byte> :: |s| + 1 < SIZE_LIMIT && IsMinimal(s) ==> middle != Tlv(DER_INTEGER, IntegerContent(s))
  }

  lemma LastInteger(middle: seq<Byte>, s: seq<Byte>, rest: seq<Byte>)
    requires |s| + 1 < SIZE_LIMIT && middle == Tlv(DER_INTEGER, IntegerContent(s)) + rest
    ensures rest != [] ==> NotTheLast(middle)
  {
    hide Tlv;
    hide IntegerContent;
    forall v: seq<Byte> | |v| + 1 < SIZE_LIMIT && middle == Tlv(DER_INTEGER, IntegerContent(v))
      ensures rest == []
    {
      assert middle == Tlv(DER_INTEGER, IntegerContent(v)) + [];
      TlvPrefixFree(DER_INTEGER, IntegerContent(s), IntegerContent(v), rest, []);
    }
  }

  // ----- the writer -----

  lemma OctetsStep(n: nat, tail: seq<Byte>)
    requires n > 0
    ensures |Octets(n)| > 0 && Octets(n) + tail == Octets(n / 256) + ([n % 256] + tail)
  {
  }

  lemma LongLength(n: nat)
    requires 128 <= n < SIZE_LIMIT
    ensures |Octets(n)| <= 8 && Octets(0) == [] && LengthBytes(n) == [0x80 + |Octets(n)|] + Octets(n)
  {
    OctetsCount(n);
  }

  /** Appends a definite length. */
  method WriteDerLength(output: seq<Byte>, length: nat) returns (r: seq<Byte>)
    requires length < SIZE_LIMIT
    ensures r == output + LengthBytes(length)
  {
    if length < 128 {
      return output + [length];
    }
    LongLength(length);
    hide *;
    var octets := LengthOctets(length);
    r := output + [0x80 + |octets|] + octets;
  }

  /** Fills an eight-byte buffer from its end; the part filled is what gets written. */
  method LengthOctets(length: nat) returns (r: seq<Byte>)
    requires |Octets(length)| <= 8 && Octets(0) == []
    ensures r == Octets(length)
  {
    hide *;
    var encoded := new Byte[8](_ => 0);
    var count, rest := 0, length;
    assert Octets(length) == Octets(length) + encoded[8..];
    while rest != 0
      invariant count <= 8 && Octets(length) == Octets(rest) + encoded[8 - count..]
      decreases rest
    {
      ghost var tail := encoded[8 - count..];
      OctetsStep(rest, tail);
      encoded[7 - count] := rest % 256;
      assert encoded[7 - count..] == [rest % 256] + tail;
      rest := rest / 256;
      count := count + 1;
    }
    r := encoded[8 - count..];
  }

  method WriteDerTlv(output: seq<Byte>, tag: Byte, content: seq<Byte>) returns (r: seq<Byte>)
    requires |content| < SIZE_LIMIT
    ensures r == output + Tlv(tag, content)
  {
    var header := WriteDerLength(output + [tag], |content|);
    r := header + content;
  }

  method EncodedIntegerContent(value: seq<Byte>) returns (r: seq<Byte>)
    ensures r == IntegerContent(value)
  {
    var rest := value;
    while |rest| > 0 && rest[0] == 0
      invariant StripZeros(rest) == StripZeros(value)
    {
      rest := rest[1..];
    }
    assert rest == StripZeros(value);
    if |rest| == 0 {
      return [0];
    }
    r := [];
    if rest[0] >= 0x80 {
      r := [0];
    }
    r := r + rest;
  }

  method EncodeSignature(r: seq<Byte>, s: seq<Byte>) returns (output: seq<Byte>)
    requires Encodable(Signature(r, s))
    ensures output == Encoded(Signature(r, s))
  {
    hide Tlv;
    var rContent := EncodedIntegerContent(r);
    var sContent := EncodedIntegerContent(s);
    var body := WriteDerTlv([], DER_INTEGER, rContent);
    body := WriteDerTlv(body, DER_INTEGER, sContent);
    assert body == BodyOf(Signature(r, s));
    output := WriteDerTlv([], DER_SEQUENCE, body);
    assert output == Encoded(Signature(r, s));
  }

  // ----- both directions -----

  function Stripped(sig: Signature): Signature {
    Signature(Minimal(sig.r), Minimal(sig.s))
  }

  lemma EncodedOfStripped(sig: Signature)
    requires Encodable(sig)
    ensures MinimalPair(Stripped(sig)) && Encodable(Stripped(sig)) && Encoded(Stripped(sig)) == Encoded(sig)
  {
    hide Tlv;
    ContentOfMinimal(sig.r);
    ContentOfMinimal(sig.s);
    MinimalLength(sig.r);
    MinimalLength(sig.s);
  }

  lemma MinimalLength(v: seq<Byte>)
    requires |v| + 1 < SIZE_LIMIT
    ensures |Minimal(v)| + 1 < SIZE_LIMIT
  {
  }

  /** parse(encode(r, s)): the zero-stripped pair. */
  method ParseOfEncode(r: seq<Byte>, s: seq<Byte>) returns (result: Result<Signature>)
    requires Encodable(Signature(r, s)) && |Encoded(Signature(r, s))| < SIZE_LIMIT
    ensures result == Ok(Signature(Minimal(r), Minimal(s)))
  {
    var der := EncodeSignature(r, s);
    result := ParseSignature(der);
    ParseEncoded(der, Signature(r, s), result);
  }

  lemma ParseEncoded(der: seq<Byte>, sig: Signature, result: Result<Signature>)
    requires Encodable(sig) && der == Encoded(sig)
    requires result.Ok? ==> MinimalPair(result.value) && Encodable(result.value) && der == Encoded(result.value)
    requires result.Err? ==> NotAnEncoding(der)
    ensures result == Ok(Stripped(sig))
  {
    hide Encoded;
    EncodedOfStripped(sig);
    if result.Ok? {
      EncodedInjective(result.value, Stripped(sig));
    }
  }

  /** encode(parse(b)) = b for every accepted b. */
  method EncodeOfParse(der: seq<Byte>) returns (accepted: bool, output: seq<Byte>)
    requires |der| < SIZE_LIMIT
    ensures accepted ==> output == der
    ensures accepted <==> !NotAnEncoding(der)
  {
    output := [];
    var sig := ParseSignature(der);
    accepted := sig.Ok?;
    if accepted {
      output := EncodeSignature(sig.value.r, sig.value.s);
    }
  }
}
