/** What FIPS 197 says of each step of the cipher, in terms of bytes: the substitution box is the inverse in
    GF(2^8) and an affine map (section 5.1.1), and the other steps are given by their indices. */
module AesStandard {
  import opened AesBits
  import opened AesTables
  import opened Aes
  import NumberTheory

  /** Rotation to the left inside a byte. */
  function Rotl(b: bv8, n: nat): bv8
    requires 0 < n < 8
  {
    (b << n) | (b >> (8 - n))
  }

  /** The affine map on bytes. */
  function Affine(c: bv8): bv8 {
    c ^ Rotl(c, 4) ^ Rotl(c, 3) ^ Rotl(c, 2) ^ Rotl(c, 1) ^ 0x63
  }

  function AffineInverse(s: bv8): bv8 {
    Rotl(s, 1) ^ Rotl(s, 3) ^ Rotl(s, 6) ^ 0x05
  }

  /** What the table substitutes for, before the affine map. */
  function Inverse(b: bv8): bv8 {
    AffineInverse(Sbox(b))
  }

  lemma AffineOfInverse(s: bv8)
    ensures Affine(AffineInverse(s)) == s
  {
  }

  /** The eight terms of a product. */
  function EightTerms(a: bv8, c: bv8): bv8 {
    var a1 := Xtime(a);
    var a2 := Xtime(a1);
    var a3 := Xtime(a2);
    var a4 := Xtime(a3);
    var a5 := Xtime(a4);
    var a6 := Xtime(a5);
    var a7 := Xtime(a6);
    Add(Term(a, c), Add(Term(a1, c >> 1), Add(Term(a2, c >> 2), Add(Term(a3, c >> 3),
      Add(Term(a4, c >> 4), Add(Term(a5, c >> 5), Add(Term(a6, c >> 6), Term(a7, c >> 7))))))))
  }

  /** Where the table has its entry for the inverse, row by row. */
  lemma InverseProduct(b: bv8)
    ensures b != 0 ==> EightTerms(b, Inverse(b)) == 1
    ensures b == 0 ==> Inverse(b) == 0
  {
    hide EightTerms;
    hide Inverse;
    var row := b >> 4;
    if row == 0x0 {
      Row0(b);
    } else if row == 0x1 {
      Row1(b);
    } else if row == 0x2 {
      Row2(b);
    } else if row == 0x3 {
      Row3(b);
    } else if row == 0x4 {
      Row4(b);
    } else if row == 0x5 {
      Row5(b);
    } else if row == 0x6 {
      Row6(b);
    } else if row == 0x7 {
      Row7(b);
    } else if row == 0x8 {
      Row8(b);
    } else if row == 0x9 {
      Row9(b);
    } else if row == 0xa {
      RowA(b);
    } else if row == 0xb {
      RowB(b);
    } else if row == 0xc {
      RowC(b);
    } else if row == 0xd {
      RowD(b);
    } else if row == 0xe {
      RowE(b);
    } else {
      RowF(b);
    }
  }

  lemma Row0(b: bv8)
    requires b >> 4 == 0x0
    ensures b != 0 ==> EightTerms(b, Inverse(b)) == 1
    ensures b == 0 ==> Inverse(b) == 0
  {
  }

  lemma Row1(b: bv8)
    requires b >> 4 == 0x1
    ensures b != 0 ==> EightTerms(b, Inverse(b)) == 1
    ensures b == 0 ==> Inverse(b) == 0
  {
  }

  lemma Row2(b: bv8)
    requires b >> 4 == 0x2
    ensures b != 0 ==> EightTerms(b, Inverse(b)) == 1
    ensures b == 0 ==> Inverse(b) == 0
  {
  }

  lemma Row3(b: bv8)
    requires b >> 4 == 0x3
    ensures b != 0 ==> EightTerms(b, Inverse(b)) == 1
    ensures b == 0 ==> Inverse(b) == 0
  {
  }

  lemma Row4(b: bv8)
    requires b >> 4 == 0x4
    ensures b != 0 ==> EightTerms(b, Inverse(b)) == 1
    ensures b == 0 ==> Inverse(b) == 0
  {
  }

  lemma Row5(b: bv8)
    requires b >> 4 == 0x5
    ensures b != 0 ==> EightTerms(b, Inverse(b)) == 1
    ensures b == 0 ==> Inverse(b) == 0
  {
  }

  lemma Row6(b: bv8)
    requires b >> 4 == 0x6
    ensures b != 0 ==> EightTerms(b, Inverse(b)) == 1
    ensures b == 0 ==> Inverse(b) == 0
  {
  }

  lemma Row7(b: bv8)
    requires b >> 4 == 0x7
    ensures b != 0 ==> EightTerms(b, Inverse(b)) == 1
    ensures b == 0 ==> Inverse(b) == 0
  {
  }

  lemma Row8(b: bv8)
    requires b >> 4 == 0x8
    ensures b != 0 ==> EightTerms(b, Inverse(b)) == 1
    ensures b == 0 ==> Inverse(b) == 0
  {
  }

  lemma Row9(b: bv8)
    requires b >> 4 == 0x9
    ensures b != 0 ==> EightTerms(b, Inverse(b)) == 1
    ensures b == 0 ==> Inverse(b) == 0
  {
  }

  lemma RowA(b: bv8)
    requires b >> 4 == 0xa
    ensures b != 0 ==> EightTerms(b, Inverse(b)) == 1
    ensures b == 0 ==> Inverse(b) == 0
  {
  }

  lemma RowB(b: bv8)
    requires b >> 4 == 0xb
    ensures b != 0 ==> EightTerms(b, Inverse(b)) == 1
    ensures b == 0 ==> Inverse(b) == 0
  {
  }

  lemma RowC(b: bv8)
    requires b >> 4 == 0xc
    ensures b != 0 ==> EightTerms(b, Inverse(b)) == 1
    ensures b == 0 ==> Inverse(b) == 0
  {
  }

  lemma RowD(b: bv8)
    requires b >> 4 == 0xd
    ensures b != 0 ==> EightTerms(b, Inverse(b)) == 1
    ensures b == 0 ==> Inverse(b) == 0
  {
  }

  lemma RowE(b: bv8)
    requires b >> 4 == 0xe
    ensures b != 0 ==> EightTerms(b, Inverse(b)) == 1
    ensures b == 0 ==> Inverse(b) == 0
  {
  }

  lemma RowF(b: bv8)
    requires b >> 4 == 0xf
    ensures b != 0 ==> EightTerms(b, Inverse(b)) == 1
    ensures b == 0 ==> Inverse(b) == 0
  {
  }

  lemma ProductUnfold(a: bv8, c: bv8)
    ensures Product(a, c) == Add(Term(a, c), Product(Xtime(a), c >> 1))
  {
    hide Xtime;
    if c == 0 {
      ProductStep(a, 0);
      ProductStep(Xtime(a), 0);
    }
  }

  /** Eight steps of the shift-and-add loop reach the end of the second factor. */
  lemma ProductIsEightTerms(a: bv8, c: bv8)
    ensures Product(a, c) == EightTerms(a, c)
  {
    hide Product;
    hide Xtime;
    hide Term;
    hide Add;
    var a1 := Xtime(a);
    var a2 := Xtime(a1);
    var a3 := Xtime(a2);
    var a4 := Xtime(a3);
    var a5 := Xtime(a4);
    var a6 := Xtime(a5);
    var a7 := Xtime(a6);
    Shifts(c);
    ProductUnfold(a, c);
    ProductUnfold(a1, c >> 1);
    ProductUnfold(a2, c >> 2);
    ProductUnfold(a3, c >> 3);
    ProductUnfold(a4, c >> 4);
    ProductUnfold(a5, c >> 5);
    ProductUnfold(a6, c >> 6);
    ProductUnfold(a7, c >> 7);
    ProductStep(Xtime(a7), 0);
    AddUnits(Term(a7, c >> 7));
  }

  lemma Shifts(c: bv8)
    ensures (c >> 1) >> 1 == c >> 2 && (c >> 2) >> 1 == c >> 3 && (c >> 3) >> 1 == c >> 4 && (c >> 4) >> 1 == c >> 5
    ensures (c >> 5) >> 1 == c >> 6 && (c >> 6) >> 1 == c >> 7 && (c >> 7) >> 1 == 0
  {
  }

  lemma AffineIs(c: bv8)
    ensures Affine(c) == c ^ ((c << 4) | (c >> 4)) ^ ((c << 3) | (c >> 5)) ^ ((c << 2) | (c >> 6)) ^ ((c << 1) | (c >> 7)) ^ 0x63
  {
  }

  /** For every byte: with c its inverse, and zero for zero, bit i of the entry is
      c_i + c_(i+4) + c_(i+5) + c_(i+6) + c_(i+7) + 63_i, indices modulo 8. */
  lemma SboxIsStandard(b: bv8) returns (c: bv8)
    ensures if b == 0 then c == 0 else Product(b, c) == 1
    ensures Sbox(b) == c ^ ((c << 4) | (c >> 4)) ^ ((c << 3) | (c >> 5)) ^ ((c << 2) | (c >> 6)) ^ ((c << 1) | (c >> 7)) ^ 0x63
  {
    c := Inverse(b);
    AffineOfInverse(Sbox(b));
    assert Affine(c) == Sbox(b);
    hide *;
    InverseProduct(b);
    ProductIsEightTerms(b, c);
    AffineIs(c);
  }

  // ----- the other steps -----

  lemma XtimeIs(a: bv8)
    ensures Xtime(a) == (a << 1) ^ (if a & 0x80 != 0 then 0x1b else 0x00)
  {
  }

  /** Column c of row r comes from column c + r (section 5.1.2). */
  lemma ShiftRowsByIndex(s: Block, r: nat, c: nat)
    requires r < 4 && c < 4
    ensures ShiftRows(s)[r + 4 * c] == s[r + 4 * ((c + r) % 4)]
  {
  }

  /** The matrix of section 5.1.3 applied to column c. */
  lemma MixColumnsByIndex(s: Block, c: nat)
    requires c < 4
    ensures var t, s0, s1, s2, s3 := MixColumns(s), s[4 * c], s[4 * c + 1], s[4 * c + 2], s[4 * c + 3];
            && t[4 * c] == Add4(Product(s0, 2), Product(s1, 3), s2, s3)
            && t[4 * c + 1] == Add4(s0, Product(s1, 2), Product(s2, 3), s3)
            && t[4 * c + 2] == Add4(s0, s1, Product(s2, 2), Product(s3, 3))
            && t[4 * c + 3] == Add4(Product(s0, 3), s1, s2, Product(s3, 2))
  {
    hide Product;
    hide Add4;
    ColumnAt(s, c);
    hide MixColumns;
    var column := MixColumns(s)[4 * c..4 * c + 4];
    assert MixColumns(s)[4 * c] == column[0] && MixColumns(s)[4 * c + 1] == column[1];
    assert MixColumns(s)[4 * c + 2] == column[2] && MixColumns(s)[4 * c + 3] == column[3];
  }

  lemma ColumnAt(s: Block, c: nat)
    requires c < 4
    ensures MixColumns(s)[4 * c..4 * c + 4] == MixColumn(s[4 * c], s[4 * c + 1], s[4 * c + 2], s[4 * c + 3])
  {
    hide MixColumn;
  }

  lemma FourTerms(a: bv8, b: bv8, c: bv8, d: bv8)
    ensures Add4(a, b, c, d) == a ^ b ^ c ^ d
  {
  }

  /** Column c takes the four bytes of word 4 round + c, most significant first (section 5.1.4). */
  lemma AddRoundKeyByIndex(s: Block, roundKeys: seq<bv32>, round: nat, c: nat)
    requires 4 * round + 4 <= |roundKeys| && c < 4
    ensures var t, w := AddRoundKey(s, roundKeys, round), roundKeys[4 * round + c];
            && t[4 * c] == s[4 * c] ^ ((w >> 24) as bv8)
            && t[4 * c + 1] == s[4 * c + 1] ^ (((w >> 16) & 0xff) as bv8)
            && t[4 * c + 2] == s[4 * c + 2] ^ (((w >> 8) & 0xff) as bv8)
            && t[4 * c + 3] == s[4 * c + 3] ^ ((w & 0xff) as bv8)
  {
    KeyByteAt(s, roundKeys, round, 4 * c);
    KeyByteAt(s, roundKeys, round, 4 * c + 1);
    KeyByteAt(s, roundKeys, round, 4 * c + 2);
    KeyByteAt(s, roundKeys, round, 4 * c + 3);
    hide AddRoundKey;
  }

  lemma KeyByteAt(s: Block, roundKeys: seq<bv32>, round: nat, i: nat)
    requires 4 * round + 4 <= |roundKeys| && i < 16
    ensures AddRoundKey(s, roundKeys, round)[i] == Add(s[i], WordByte(roundKeys[4 * round + i / 4], i % 4))
  {
    hide Add;
    hide WordByte;
  }

  // ----- the cipher -----

  /** Figure 5: from the plaintext under the first round key, one state per round, the last round without
      the column mix. */
  lemma EncryptByRounds(cipher: AesBlockCipher, s: Block, states: seq<Block>)
    requires cipher.rounds in {10, 12, 14} && |cipher.roundKeys| == 60 && |states| == cipher.rounds
    requires states[0] == AddRoundKey(s, cipher.roundKeys, 0)
    requires forall i :: 0 < i < |states| ==>
               states[i] == AddRoundKey(MixColumns(ShiftRows(SubBytes(states[i - 1]))), cipher.roundKeys, i)
    ensures cipher.Valid()
         && Encrypt(cipher, s) == AddRoundKey(ShiftRows(SubBytes(states[|states| - 1])), cipher.roundKeys, cipher.rounds)
  {
    assert cipher.Valid();
    hide *;
    EncryptIs(cipher, s);
    StatesAreRounds(cipher.roundKeys, s, states, |states| - 1);
  }

  lemma {:induction false} StatesAreRounds(keys: seq<bv32>, s: Block, states: seq<Block>, n: nat)
    requires |keys| == 60 && n < |states| <= 14 && states[0] == AddRoundKey(s, keys, 0)
    requires forall i :: 0 < i < |states| ==> states[i] == AddRoundKey(MixColumns(ShiftRows(SubBytes(states[i - 1]))), keys, i)
    ensures states[n] == Rounds(s, keys, n)
  {
    hide *;
    RoundsStep(s, keys, n);
    if n > 0 {
      StatesAreRounds(keys, s, states, n - 1);
    }
  }

  /** 10, 12 or 14 rounds, and the schedule as the round keys. */
  lemma ExpandedIs(key: Bytes)
    requires |key| in {16, 24, 32}
    ensures IsKeySize(|key|) && Expanded(key).Valid() && |Expanded(key).roundKeys| == 60
    ensures Expanded(key).rounds == |key| / 4 + 6
    ensures forall i :: 0 <= i < 4 * (|key| / 4 + 7) ==> Expanded(key).roundKeys[i] == ScheduleWord(key, i)
  {
    hide ScheduleWord;
  }

  lemma SubBytesByIndex(s: Block, i: nat)
    requires i < 16
    ensures SubBytes(s)[i] == Sbox(s[i])
  {
    hide Sbox;
  }

  // ----- key expansion -----

  /** The first words are the bytes of the key. */
  lemma ScheduleStart(key: Bytes, i: nat)
    requires |key| in {16, 24, 32} && 4 * i < |key|
    ensures ScheduleWord(key, i) == ((key[4 * i] as bv32) << 24) | ((key[4 * i + 1] as bv32) << 16)
                                  | ((key[4 * i + 2] as bv32) << 8) | (key[4 * i + 3] as bv32)
  {
    LoadIs(key[4 * i], key[4 * i + 1], key[4 * i + 2], key[4 * i + 3]);
    ScheduleStep(key, i);
    hide LoadBe32;
    hide ScheduleWord;
  }

  /** The recurrence of section 5.2 for the three key sizes, at word i = n q + r. */
  lemma ScheduleRecurrence(key: Bytes, i: nat, n: nat, q: nat, r: nat)
    requires n in {4, 6, 8} && |key| == 4 * n && n <= i < 4 * n + 28 && i == n * q + r && r < n
    ensures var back, t := ScheduleWord(key, i - n), ScheduleWord(key, i - 1);
            ScheduleWord(key, i) == AddWord(back, Mixed(t, n, q, r))
  {
    KeySize(|key|);
    hide *;
    NumberTheory.DivModUnique(i, n, q, r);
    ScheduleStep(key, i);
    TransformedIs(ScheduleWord(key, i - 1), i, n, q, r);
  }

  /** At a multiple of n: rotated, substituted, and the round constant added; for 256-bit keys also
      substituted half way. */
  function Mixed(t: bv32, n: nat, q: nat, r: nat): bv32 {
    if r == 0 then AddWord(SubWord((t << 8) | (t >> 24)), (Rcon(q) as bv32) << 24)
    else if n == 8 && r == 4 then SubWord(t)
    else t
  }

  lemma TransformedIs(t: bv32, i: nat, n: nat, q: nat, r: nat)
    requires n in {4, 6, 8} && n <= i < 4 * n + 28 && i / n == q && i % n == r
    ensures Transformed(t, n, i) == Mixed(t, n, q, r)
  {
    hide SubWord;
    hide AddWord;
    hide RotWord;
    hide RconWord;
    hide Rcon;
    RconIndex(i, n);
    RotIs(t);
    RconIs(q);
  }

  lemma AddIs(a: bv32, b: bv32)
    ensures AddWord(a, b) == a ^ b
  {
  }

  lemma RotIs(t: bv32)
    ensures RotWord(t) == (t << 8) | (t >> 24)
  {
  }

  lemma RconIs(j: nat)
    requires 1 <= j <= 10
    ensures RconWord(j) == (Rcon(j) as bv32) << 24
  {
    RconTable(j);
    hide RCON;
    hide Rcon;
  }

  lemma LoadIs(a: bv8, b: bv8, c: bv8, d: bv8)
    ensures LoadBe32(a, b, c, d) == ((a as bv32) << 24) | ((b as bv32) << 16) | ((c as bv32) << 8) | (d as bv32)
  {
  }

  /** The substitution of a word is that of its bytes. */
  lemma SubWordIs(t: bv32)
    ensures SubWord(t) == ((Sbox((t >> 24) as bv8) as bv32) << 24) | ((Sbox(((t >> 16) & 0xff) as bv8) as bv32) << 16)
                        | ((Sbox(((t >> 8) & 0xff) as bv8) as bv32) << 8) | (Sbox((t & 0xff) as bv8) as bv32)
  {
    hide Sbox;
  }
}
