/** Conversions between big-endian bytes and 32-bit limbs. */
module ByteLoops {
  import opened NumberTheory
  import opened Digits

  /** Takes up to four bytes below `start` into one limb, the last byte lowest. */
  method LoadLimb(bytes: seq<Byte>, start: nat) returns (limb: Word, byteIndex: nat)
    requires start <= |bytes|
    ensures byteIndex == if start <= 4 then 0 else start - 4
    ensures limb == Be(bytes[byteIndex..start])
  {
    limb, byteIndex := 0, start;
    var i := 0;
    while i < 4 && byteIndex > 0
      invariant 0 <= i <= 4 && 0 <= byteIndex == start - i
      invariant limb == Be(bytes[byteIndex..start])
      decreases 4 - i
    {
      byteIndex := byteIndex - 1;
      limb := OrByte(limb, bytes[byteIndex], i, bytes[byteIndex + 1..start]);
      assert bytes[byteIndex..start] == [bytes[byteIndex]] + bytes[byteIndex + 1..start];
      i := i + 1;
    }
  }

  /** `limb |= byte << (8 * i)`, where `tail` are the i bytes already in the limb. */
  function OrByte(limb: Word, byte: Byte, i: nat, ghost tail: seq<Byte>): (r: Word)
    requires i < 4 && |tail| == i && limb == Be(tail)
    ensures r == Be([byte] + tail)
  {
    BeBound(tail);
    Pow256(i);
    BitOrShifted(limb, byte, 8 * i);
    BeCons(byte, tail);
    BeBound([byte] + tail);
    PowMonotone(256, i + 1, 4);
    PowPositive(2, 8 * i);
    assert Pow(256, 4) == BASE;
    BitOr(limb, byte * Pow(2, 8 * i))
  }

  /** Fills `width` limbs from the end of the byte string, four bytes to a limb. */
  method LoadLimbs(bytes: seq<Byte>, width: nat) returns (r: seq<Word>)
    requires |bytes| <= 4 * width
    ensures |r| == width && Val(r) == Be(bytes)
  {
    var limbs := new Word[width](_ => 0);
    var byteIndex := |bytes|;
    for limbIndex := 0 to width
      invariant 0 <= byteIndex <= |bytes|
      invariant byteIndex == if |bytes| <= 4 * limbIndex then 0 else |bytes| - 4 * limbIndex
      invariant Val(limbs[..limbIndex]) == Be(bytes[byteIndex..])
    {
      ghost var start, before := byteIndex, limbs[..limbIndex];
      var limb;
      limb, byteIndex := LoadLimb(bytes, byteIndex);
      limbs[limbIndex] := limb;
      assert limbs[..limbIndex + 1] == before + [limb];
      AppendLimb(before, limb, bytes, byteIndex, start);
    }
    assert limbs[..width] == limbs[..] && bytes[0..] == bytes;
    r := limbs[..];
  }

  lemma AppendLimb(before: seq<Word>, limb: Word, bytes: seq<Byte>, from: nat, start: nat)
    requires from <= start <= |bytes| && limb == Be(bytes[from..start])
    requires Val(before) == Be(bytes[start..])
    requires start > 0 ==> |bytes| - start == 4 * |before|
    ensures Val(before + [limb]) == Be(bytes[from..])
  {
    LeSnoc(before, limb, BASE);
    assert bytes[from..] == bytes[from..start] + bytes[start..];
    BeConcat(bytes[from..start], bytes[start..]);
    if start > 0 {
      Pow256Base(|before|);
    }
  }

  lemma {:induction false} Pow256(i: nat)
    ensures Pow(256, i) == Pow(2, 8 * i)
    decreases i
  {
    if i > 0 {
      Pow256(i - 1);
      PowAdd(2, 8, 8 * (i - 1));
      assert Pow(2, 8) == 256;
    }
  }

  lemma {:induction false} Pow256Base(k: nat)
    ensures Pow(256, 4 * k) == Pow(BASE, k)
    decreases k
  {
    if k > 0 {
      Pow256Base(k - 1);
      PowAdd(256, 4, 4 * (k - 1));
      assert Pow(256, 4) == BASE;
    }
  }

  /** The four bytes of a limb, most significant first. */
  function LimbBytes(limb: Word): (r: seq<Byte>)
    ensures |r| == 4 && Be(r) == limb
  {
    var h: Word := limb / 0x100;
    var g: Word := h / 0x100;
    BeSnoc([], g / 0x100);
    BeSnoc([g / 0x100], g % 0x100);
    BeSnoc([g / 0x100, g % 0x100], h % 0x100);
    BeSnoc([g / 0x100, g % 0x100, h % 0x100], limb % 0x100);
    assert [] + [g / 0x100] == [g / 0x100];
    [g / 0x100, g % 0x100] + [h % 0x100] + [limb % 0x100]
  }

  /** Writes the limbs back as big-endian bytes, four per limb. */
  method StoreLimbs(limbs: seq<Word>) returns (r: seq<Byte>)
    ensures |r| == 4 * |limbs| && Be(r) == Val(limbs)
  {
    var width := |limbs|;
    var bytes := new Byte[4 * width](_ => 0);
    NoLimbs(bytes[4 * width..], limbs);
    hide *;
    for limbIndex := 0 to width
      invariant Be(bytes[4 * (width - limbIndex)..]) == Val(limbs[..limbIndex])
    {
      var offset := 4 * (width - limbIndex - 1);
      ghost var after := bytes[offset + 4..];
      StoreLimb(bytes, offset, limbs[limbIndex]);
      assert bytes[offset..] == bytes[offset..offset + 4] + bytes[offset + 4..];
      PrependLimb(limbs, limbIndex, after);
    }
    assert bytes[0..] == bytes[..] && limbs[..width] == limbs;
    r := bytes[..];
  }

  lemma NoLimbs(bytes: seq<Byte>, limbs: seq<Word>)
    requires |bytes| == 0
    ensures Be(bytes) == Val(limbs[..0])
  {
  }

  method StoreLimb(bytes: array<Byte>, offset: nat, limb: Word)
    requires offset + 4 <= bytes.Length
    modifies bytes
    ensures bytes[offset..offset + 4] == LimbBytes(limb)
    ensures bytes[..offset] == old(bytes[..offset]) && bytes[offset + 4..] == old(bytes[offset + 4..])
  {
    bytes[offset] := limb / 0x100 / 0x100 / 0x100;
    bytes[offset + 1] := (limb / 0x100 / 0x100) % 0x100;
    bytes[offset + 2] := (limb / 0x100) % 0x100;
    bytes[offset + 3] := limb % 0x100;
  }

  lemma PrependLimb(limbs: seq<Word>, k: nat, after: seq<Byte>)
    requires k < |limbs| && |after| == 4 * k && Be(after) == Val(limbs[..k])
    ensures Be(LimbBytes(limbs[k]) + after) == Val(limbs[..k + 1])
  {
    BeConcat(LimbBytes(limbs[k]), after);
    Pow256Base(k);
    LeTake(limbs, k, BASE);
  }
}
