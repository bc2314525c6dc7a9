/** The AES block cipher, `src/aes.cpp` (sections 4.2 and 5.1 to 5.3 of FIPS 197). */
module Aes {
  import opened AesBits
  import opened AesTables
  import opened Results

  type Bytes = seq<bv8>
  type Block = s: seq<bv8> | |s| == 16 witness [0, 0, 0, 0, 0, 0, 0, 0, 0, 0, 0, 0, 0, 0, 0, 0]

  // ----- GF(2^8) -----

  /** The product of two polynomials: the terms of `rhs` from the constant one up. */
  function Product(lhs: bv8, rhs: bv8): bv8
    decreases rhs
  {
    if rhs == 0 then 0 else
      ShiftDecreases(rhs);
      Add(Term(lhs, rhs), Product(Xtime(lhs), rhs >> 1))
  }

  function Term(lhs: bv8, rhs: bv8): bv8 {
    if rhs & 1 != 0 then lhs else 0
  }

  lemma ProductStep(lhs: bv8, rhs: bv8)
    ensures Product(lhs, 0) == 0
    ensures rhs != 0 ==> Product(lhs, rhs) == Add(Term(lhs, rhs), Product(Xtime(lhs), rhs >> 1))
  {
    hide Xtime;
    hide Term;
  }

  lemma TermLinear(a: bv8, b: bv8, rhs: bv8)
    ensures Term(Add(a, b), rhs) == Add(Term(a, rhs), Term(b, rhs))
  {
  }

  method Multiply(lhs: bv8, rhs: bv8) returns (result: bv8)
    ensures result == Product(lhs, rhs)
  {
    hide *;
    result := 0;
    var l, r := lhs, rhs;
    AddUnits(Product(lhs, rhs));
    while r != 0
      invariant Product(lhs, rhs) == Add(result, Product(l, r))
      decreases r
    {
      ShiftDecreases(r);
      ProductStep(l, r);
      AddAssociates(result, Term(l, r), Product(Xtime(l), r >> 1));
      AddTerm(result, l, r);
      if r & 1 != 0 {
        result := Add(result, l);
      }
      l := Xtime(l);
      r := r >> 1;
    }
    ProductStep(l, r);
    AddUnits(result);
  }

  lemma AddTerm(result: bv8, l: bv8, r: bv8)
    ensures Add(result, Term(l, r)) == if r & 1 != 0 then Add(result, l) else result
  {
  }

  /** Multiplication distributes over addition. */
  lemma {:induction false} ProductLinear(a: bv8, b: bv8, rhs: bv8)
    ensures Product(Add(a, b), rhs) == Add(Product(a, rhs), Product(b, rhs))
    decreases rhs
  {
    hide *;
    ProductStep(Add(a, b), rhs);
    ProductStep(a, rhs);
    ProductStep(b, rhs);
    AddUnits(0);
    if rhs != 0 {
      ShiftDecreases(rhs);
      XtimeLinear(a, b);
      ProductLinear(Xtime(a), Xtime(b), rhs >> 1);
      TermLinear(a, b, rhs);
      AddMiddle(Term(a, rhs), Term(b, rhs), Product(Xtime(a), rhs >> 1), Product(Xtime(b), rhs >> 1));
    }
  }

  lemma ProductOfFour(a: bv8, b: bv8, c: bv8, d: bv8, rhs: bv8)
    ensures Product(Add4(a, b, c, d), rhs) == Add4(Product(a, rhs), Product(b, rhs), Product(c, rhs), Product(d, rhs))
  {
    hide *;
    AddFour(a, b, c, d);
    ProductLinear(Add(a, b), Add(c, d), rhs);
    ProductLinear(a, b, rhs);
    ProductLinear(c, d, rhs);
    AddFour(Product(a, rhs), Product(b, rhs), Product(c, rhs), Product(d, rhs));
  }

  lemma OddStep(a: bv8, rhs: bv8, half: bv8)
    requires rhs & 1 == 1 && rhs >> 1 == half
    ensures Product(a, rhs) == Add(a, Product(Xtime(a), half))
  {
    hide Product;
    hide Xtime;
    hide Add;
    ProductStep(a, rhs);
  }

  lemma EvenStep(a: bv8, rhs: bv8, half: bv8)
    requires rhs & 1 == 0 && rhs >> 1 == half && rhs != 0
    ensures Product(a, rhs) == Product(Xtime(a), half)
  {
    hide Product;
    hide Xtime;
    hide Add;
    ProductStep(a, rhs);
    AddUnits(Product(Xtime(a), half));
  }

  lemma TimesOne(a: bv8)
    ensures Product(a, 1) == a
  {
    hide *;
    OddStep(a, 1, 0);
    ProductStep(Xtime(a), 0);
    AddUnits(a);
  }

  /** The constants of the column matrices. */
  lemma SmallProducts(a: bv8)
    ensures Product(a, 2) == Xtime(a) && Product(a, 3) == Times3(a)
    ensures Product(a, 9) == Times9(a) && Product(a, 11) == Times11(a)
    ensures Product(a, 13) == Times13(a) && Product(a, 14) == Times14(a)
  {
    hide Product;
    hide Xtime;
    hide Add;
    var x2 := Xtime(a);
    var x4 := Xtime(x2);
    var x8 := Xtime(x4);
    TimesOne(x2);
    TimesOne(x8);
    EvenStep(a, 2, 1);
    OddStep(a, 3, 1);
    EvenStep(x4, 2, 1);
    OddStep(x4, 3, 1);
    EvenStep(x2, 4, 2);
    OddStep(a, 9, 4);
    OddStep(x2, 5, 2);
    OddStep(a, 11, 5);
    EvenStep(x2, 6, 3);
    OddStep(a, 13, 6);
    OddStep(x2, 7, 3);
    EvenStep(a, 14, 7);
  }

  // ----- one column -----

  function MixColumn(a0: bv8, a1: bv8, a2: bv8, a3: bv8): (column: seq<bv8>)
    ensures |column| == 4
  {
    [Add4(Product(a0, 2), Product(a1, 3), a2, a3),
     Add4(a0, Product(a1, 2), Product(a2, 3), a3),
     Add4(a0, a1, Product(a2, 2), Product(a3, 3)),
     Add4(Product(a0, 3), a1, a2, Product(a3, 2))]
  }

  function InvMixColumn(a0: bv8, a1: bv8, a2: bv8, a3: bv8): (column: seq<bv8>)
    ensures |column| == 4
  {
    [Add4(Product(a0, 14), Product(a1, 11), Product(a2, 13), Product(a3, 9)),
     Add4(Product(a0, 9), Product(a1, 14), Product(a2, 11), Product(a3, 13)),
     Add4(Product(a0, 13), Product(a1, 9), Product(a2, 14), Product(a3, 11)),
     Add4(Product(a0, 11), Product(a1, 13), Product(a2, 9), Product(a3, 14))]
  }

  /** The matrix product for one byte, in terms of the products the code forms. */
  lemma InverseEntries(a: bv8)
    ensures Add4(Product(Product(a, 2), 14), Product(a, 11), Product(a, 13), Product(Product(a, 3), 9)) == a
    ensures Add4(Product(Product(a, 3), 14), Product(Product(a, 2), 11), Product(a, 13), Product(a, 9)) == 0
    ensures Add4(Product(a, 14), Product(Product(a, 3), 11), Product(Product(a, 2), 13), Product(a, 9)) == 0
    ensures Add4(Product(a, 14), Product(a, 11), Product(Product(a, 3), 13), Product(Product(a, 2), 9)) == 0
  {
    hide *;
    SmallProducts(a);
    SmallProducts(Xtime(a));
    SmallProducts(Times3(a));
    MatrixDiagonal(a);
    MatrixOffDiagonal(a);
  }

  /** Row 0 of the matrices; the other rows are rotations. */
  function MixRow(a0: bv8, a1: bv8, a2: bv8, a3: bv8): bv8 {
    Add4(Product(a0, 2), Product(a1, 3), a2, a3)
  }

  function InvMixRow(b0: bv8, b1: bv8, b2: bv8, b3: bv8): bv8 {
    Add4(Product(b0, 14), Product(b1, 11), Product(b2, 13), Product(b3, 9))
  }

  lemma MixRows(a0: bv8, a1: bv8, a2: bv8, a3: bv8)
    ensures MixColumn(a0, a1, a2, a3)
         == [MixRow(a0, a1, a2, a3), MixRow(a1, a2, a3, a0), MixRow(a2, a3, a0, a1), MixRow(a3, a0, a1, a2)]
    ensures InvMixColumn(a0, a1, a2, a3)
         == [InvMixRow(a0, a1, a2, a3), InvMixRow(a1, a2, a3, a0), InvMixRow(a2, a3, a0, a1), InvMixRow(a3, a0, a1, a2)]
  {
    hide Product;
    hide Add4;
    Rotate(a0, Product(a1, 2), Product(a2, 3), a3);
    Rotate(a0, a1, Product(a2, 2), Product(a3, 3));
    Rotate(a1, Product(a2, 2), Product(a3, 3), a0);
    Rotate(Product(a3, 2), Product(a0, 3), a1, a2);
    Rotate(Product(a0, 9), Product(a1, 14), Product(a2, 11), Product(a3, 13));
    Rotate(Product(a0, 13), Product(a1, 9), Product(a2, 14), Product(a3, 11));
    Rotate(Product(a1, 9), Product(a2, 14), Product(a3, 11), Product(a0, 13));
    Rotate(Product(a3, 14), Product(a0, 11), Product(a1, 13), Product(a2, 9));
  }

  /** The first row of the inverse, applied to a mixed column, gives back the first byte. */
  lemma FirstRow(a0: bv8, a1: bv8, a2: bv8, a3: bv8)
    ensures InvMixRow(MixRow(a0, a1, a2, a3), MixRow(a1, a2, a3, a0), MixRow(a2, a3, a0, a1), MixRow(a3, a0, a1, a2)) == a0
  {
    hide Product;
    hide Add4;
    ProductOfFour(Product(a0, 2), Product(a1, 3), a2, a3, 14);
    ProductOfFour(Product(a1, 2), Product(a2, 3), a3, a0, 11);
    ProductOfFour(Product(a2, 2), Product(a3, 3), a0, a1, 13);
    ProductOfFour(Product(a3, 2), Product(a0, 3), a1, a2, 9);
    Rotate(Product(a0, 11), Product(Product(a1, 2), 11), Product(Product(a2, 3), 11), Product(a3, 11));
    Rotate(Product(a0, 13), Product(a1, 13), Product(Product(a2, 2), 13), Product(Product(a3, 3), 13));
    Rotate(Product(a1, 13), Product(Product(a2, 2), 13), Product(Product(a3, 3), 13), Product(a0, 13));
    Rotate(Product(Product(a3, 2), 9), Product(Product(a0, 3), 9), Product(a1, 9), Product(a2, 9));
    Transpose(Product(Product(a0, 2), 14), Product(Product(a1, 3), 14), Product(a2, 14), Product(a3, 14),
              Product(a0, 11), Product(Product(a1, 2), 11), Product(Product(a2, 3), 11), Product(a3, 11),
              Product(a0, 13), Product(a1, 13), Product(Product(a2, 2), 13), Product(Product(a3, 3), 13),
              Product(Product(a0, 3), 9), Product(a1, 9), Product(a2, 9), Product(Product(a3, 2), 9));
    InverseEntries(a0);
    InverseEntries(a1);
    InverseEntries(a2);
    InverseEntries(a3);
    OneSurvives(a0);
  }

  /** Mixing a column and unmixing it changes nothing. */
  lemma ColumnInverse(a0: bv8, a1: bv8, a2: bv8, a3: bv8)
    ensures var b := MixColumn(a0, a1, a2, a3);
            InvMixColumn(b[0], b[1], b[2], b[3]) == [a0, a1, a2, a3]
  {
    hide MixRow;
    hide InvMixRow;
    MixRows(a0, a1, a2, a3);
    var b := MixColumn(a0, a1, a2, a3);
    MixRows(b[0], b[1], b[2], b[3]);
    hide MixColumn;
    hide InvMixColumn;
    FirstRow(a0, a1, a2, a3);
    FirstRow(a1, a2, a3, a0);
    FirstRow(a2, a3, a0, a1);
    FirstRow(a3, a0, a1, a2);
  }

  // ----- the transformations of the state -----

  function SubBytes(s: Block): Block {
    seq(16, i requires 0 <= i < 16 => Sbox(s[i]))
  }

  function InvSubBytes(s: Block): Block {
    seq(16, i requires 0 <= i < 16 => InvSbox(s[i]))
  }

  /** Row r, the bytes r, r + 4, r + 8, r + 12, rotates left by r. */
  function ShiftRows(s: Block): Block {
    [s[0], s[5], s[10], s[15], s[4], s[9], s[14], s[3], s[8], s[13], s[2], s[7], s[12], s[1], s[6], s[11]]
  }

  function InvShiftRows(s: Block): Block {
    [s[0], s[13], s[10], s[7], s[4], s[1], s[14], s[11], s[8], s[5], s[2], s[15], s[12], s[9], s[6], s[3]]
  }

  function MixColumns(s: Block): Block {
    hide *;
    MixColumn(s[0], s[1], s[2], s[3]) + MixColumn(s[4], s[5], s[6], s[7])
      + MixColumn(s[8], s[9], s[10], s[11]) + MixColumn(s[12], s[13], s[14], s[15])
  }

  function InvMixColumns(s: Block): Block {
    hide *;
    InvMixColumn(s[0], s[1], s[2], s[3]) + InvMixColumn(s[4], s[5], s[6], s[7])
      + InvMixColumn(s[8], s[9], s[10], s[11]) + InvMixColumn(s[12], s[13], s[14], s[15])
  }

  /** The bytes of a word, most significant first. */
  function WordByte(word: bv32, row: nat): bv8
    requires row < 4
  {
    if row == 0 then (word >> 24) as bv8
    else if row == 1 then ((word >> 16) & 0xff) as bv8
    else if row == 2 then ((word >> 8) & 0xff) as bv8
    else (word & 0xff) as bv8
  }

  function AddRoundKey(s: Block, roundKeys: seq<bv32>, round: nat): Block
    requires 4 * round + 4 <= |roundKeys|
  {
    seq(16, i requires 0 <= i < 16 && 4 * round + 4 <= |roundKeys| =>
      Add(s[i], WordByte(roundKeys[4 * round + i / 4], i % 4)))
  }

  lemma SubBytesInverse(s: Block)
    ensures InvSubBytes(SubBytes(s)) == s
  {
    hide Sbox;
    hide InvSbox;
    forall i | 0 <= i < 16
      ensures InvSbox(Sbox(s[i])) == s[i]
    {
      SboxInverse(s[i]);
    }
  }

  lemma ShiftRowsInverse(s: Block)
    ensures InvShiftRows(ShiftRows(s)) == s
  {
  }

  lemma MixColumnsInverse(s: Block)
    ensures InvMixColumns(MixColumns(s)) == s
  {
    hide MixColumn;
    hide InvMixColumn;
    ColumnInverse(s[0], s[1], s[2], s[3]);
    ColumnInverse(s[4], s[5], s[6], s[7]);
    ColumnInverse(s[8], s[9], s[10], s[11]);
    ColumnInverse(s[12], s[13], s[14], s[15]);
    assert s == [s[0], s[1], s[2], s[3]] + [s[4], s[5], s[6], s[7]] + [s[8], s[9], s[10], s[11]] + [s[12], s[13], s[14], s[15]];
  }

  lemma AddRoundKeyTwice(s: Block, roundKeys: seq<bv32>, round: nat)
    requires 4 * round + 4 <= |roundKeys|
    ensures AddRoundKey(AddRoundKey(s, roundKeys, round), roundKeys, round) == s
  {
    hide Add;
    hide WordByte;
    forall i | 0 <= i < 16
      ensures Add(Add(s[i], WordByte(roundKeys[4 * round + i / 4], i % 4)), WordByte(roundKeys[4 * round + i / 4], i % 4)) == s[i]
    {
      AddTwice(s[i], WordByte(roundKeys[4 * round + i / 4], i % 4));
    }
  }

  // ----- the cipher -----

  datatype AesBlockCipher = AesBlockCipher(roundKeys: seq<bv32>, rounds: nat) {
    predicate Valid() {
      rounds in {10, 12, 14} && |roundKeys| == 60
    }
  }

  /** The state after the first `round` keys have been added. */
  function Rounds(s: Block, roundKeys: seq<bv32>, round: nat): Block
    requires 4 * round + 4 <= |roundKeys|
  {
    if round == 0 then AddRoundKey(s, roundKeys, 0)
    else AddRoundKey(MixColumns(ShiftRows(SubBytes(Rounds(s, roundKeys, round - 1)))), roundKeys, round)
  }

  function Encrypt(cipher: AesBlockCipher, s: Block): Block
    requires cipher.Valid()
  {
    AddRoundKey(ShiftRows(SubBytes(Rounds(s, cipher.roundKeys, cipher.rounds - 1))), cipher.roundKeys, cipher.rounds)
  }

  /** The inverse rounds from `round` down to 1. */
  function Unrounds(s: Block, roundKeys: seq<bv32>, round: nat): Block
    requires 4 * round + 4 <= |roundKeys|
    decreases round
  {
    if round == 0 then s
    else Unrounds(InvMixColumns(AddRoundKey(InvSubBytes(InvShiftRows(s)), roundKeys, round)), roundKeys, round - 1)
  }

  function Decrypt(cipher: AesBlockCipher, s: Block): Block
    requires cipher.Valid()
  {
    var inner := Unrounds(AddRoundKey(s, cipher.roundKeys, cipher.rounds), cipher.roundKeys, cipher.rounds - 1);
    AddRoundKey(InvSubBytes(InvShiftRows(inner)), cipher.roundKeys, 0)
  }

  /** Undoing the rounds one by one leads back to the first key addition. */
  lemma {:induction false} UnroundsOfRounds(s: Block, roundKeys: seq<bv32>, round: nat)
    requires 4 * round + 4 <= |roundKeys|
    ensures Unrounds(ShiftRows(SubBytes(Rounds(s, roundKeys, round))), roundKeys, round)
         == ShiftRows(SubBytes(AddRoundKey(s, roundKeys, 0)))
    decreases round
  {
    hide *;
    RoundsStep(s, roundKeys, round);
    UnroundsStep(ShiftRows(SubBytes(Rounds(s, roundKeys, round))), roundKeys, round);
    if round > 0 {
      var before := ShiftRows(SubBytes(Rounds(s, roundKeys, round - 1)));
      var after := Rounds(s, roundKeys, round);
      ShiftRowsInverse(SubBytes(after));
      SubBytesInverse(after);
      AddRoundKeyTwice(MixColumns(before), roundKeys, round);
      MixColumnsInverse(before);
      UnroundsOfRounds(s, roundKeys, round - 1);
    }
  }

  lemma RoundsStep(s: Block, roundKeys: seq<bv32>, round: nat)
    requires 4 * round + 4 <= |roundKeys|
    ensures Rounds(s, roundKeys, round)
         == if round == 0 then AddRoundKey(s, roundKeys, 0)
            else AddRoundKey(MixColumns(ShiftRows(SubBytes(Rounds(s, roundKeys, round - 1)))), roundKeys, round)
  {
    hide AddRoundKey;
    hide MixColumns;
    hide ShiftRows;
    hide SubBytes;
  }

  lemma UnroundsStep(s: Block, roundKeys: seq<bv32>, round: nat)
    requires 4 * round + 4 <= |roundKeys|
    ensures Unrounds(s, roundKeys, round)
         == if round == 0 then s
            else Unrounds(InvMixColumns(AddRoundKey(InvSubBytes(InvShiftRows(s)), roundKeys, round)), roundKeys, round - 1)
  {
    hide AddRoundKey;
    hide InvMixColumns;
    hide InvShiftRows;
    hide InvSubBytes;
  }

  /** Decryption undoes encryption for every block and every key size. */
  lemma DecryptOfEncrypt(cipher: AesBlockCipher, s: Block)
    requires cipher.Valid()
    ensures Decrypt(cipher, Encrypt(cipher, s)) == s
  {
    hide AddRoundKey;
    hide MixColumns;
    hide InvMixColumns;
    hide ShiftRows;
    hide InvShiftRows;
    hide SubBytes;
    hide InvSubBytes;
    hide Rounds;
    hide Unrounds;
    var keys, rounds := cipher.roundKeys, cipher.rounds;
    AddRoundKeyTwice(ShiftRows(SubBytes(Rounds(s, keys, rounds - 1))), keys, rounds);
    UnroundsOfRounds(s, keys, rounds - 1);
    ShiftRowsInverse(SubBytes(AddRoundKey(s, keys, 0)));
    SubBytesInverse(AddRoundKey(s, keys, 0));
    AddRoundKeyTwice(s, keys, 0);
  }

  // ----- the transformations in place -----

  method SubBytesInPlace(state: array<bv8>)
    requires state.Length == 16
    modifies state
    ensures state[..] == SubBytes(old(state[..]))
  {
    hide Sbox;
    for i := 0 to 16
      invariant forall k :: 0 <= k < i ==> state[k] == Sbox(old(state[k]))
      invariant forall k :: i <= k < 16 ==> state[k] == old(state[k])
    {
      state[i] := Sbox(state[i]);
    }
  }

  method InvSubBytesInPlace(state: array<bv8>)
    requires state.Length == 16
    modifies state
    ensures state[..] == InvSubBytes(old(state[..]))
  {
    hide InvSbox;
    for i := 0 to 16
      invariant forall k :: 0 <= k < i ==> state[k] == InvSbox(old(state[k]))
      invariant forall k :: i <= k < 16 ==> state[k] == old(state[k])
    {
      state[i] := InvSbox(state[i]);
    }
  }

  /** Four assignments to different bytes. */
  method SetFour(state: array<bv8>, i: nat, j: nat, k: nat, l: nat, a: bv8, b: bv8, c: bv8, d: bv8)
    requires state.Length == 16 && i < 16 && j < 16 && k < 16 && l < 16
    modifies state
    ensures state[..] == old(state[..])[i := a][j := b][k := c][l := d]
  {
    state[i] := a;
    state[j] := b;
    state[k] := c;
    state[l] := d;
  }

  method ShiftRowsInPlace(state: array<bv8>)
    requires state.Length == 16
    modifies state
    ensures state[..] == ShiftRows(old(state[..]))
  {
    var copy := state[..];
    SetFour(state, 1, 5, 9, 13, copy[5], copy[9], copy[13], copy[1]);
    SetFour(state, 2, 6, 10, 14, copy[10], copy[14], copy[2], copy[6]);
    SetFour(state, 3, 7, 11, 15, copy[15], copy[3], copy[7], copy[11]);
    ShiftRowsAsUpdates(copy);
  }

  lemma ShiftRowsAsUpdates(s: Block)
    ensures s[1 := s[5]][5 := s[9]][9 := s[13]][13 := s[1]][2 := s[10]][6 := s[14]][10 := s[2]][14 := s[6]]
             [3 := s[15]][7 := s[3]][11 := s[7]][15 := s[11]] == ShiftRows(s)
  {
  }

  method InvShiftRowsInPlace(state: array<bv8>)
    requires state.Length == 16
    modifies state
    ensures state[..] == InvShiftRows(old(state[..]))
  {
    var copy := state[..];
    SetFour(state, 1, 5, 9, 13, copy[13], copy[1], copy[5], copy[9]);
    SetFour(state, 2, 6, 10, 14, copy[10], copy[14], copy[2], copy[6]);
    SetFour(state, 3, 7, 11, 15, copy[7], copy[11], copy[15], copy[3]);
    InvShiftRowsAsUpdates(copy);
  }

  lemma InvShiftRowsAsUpdates(s: Block)
    ensures s[1 := s[13]][5 := s[1]][9 := s[5]][13 := s[9]][2 := s[10]][6 := s[14]][10 := s[2]][14 := s[6]]
             [3 := s[7]][7 := s[11]][11 := s[15]][15 := s[3]] == InvShiftRows(s)
  {
  }

  method AddRoundKeyInPlace(state: array<bv8>, roundKeys: seq<bv32>, round: nat)
    requires state.Length == 16 && 4 * round + 4 <= |roundKeys|
    modifies state
    ensures state[..] == AddRoundKey(old(state[..]), roundKeys, round)
  {
    hide Add;
    hide WordByte;
    hide KeyedByte;
    ghost var s := state[..];
    for column := 0 to 4
      invariant KeyedUpTo(state[..], s, roundKeys, round, column)
    {
      AddKeyColumn(state, s, roundKeys, round, column);
    }
    KeyedState(s, roundKeys, round);
  }

  /** The first `columns` columns of the state carry the round key, the others do not yet. */
  ghost predicate KeyedUpTo(state: seq<bv8>, s: Block, roundKeys: seq<bv32>, round: nat, columns: nat)
    requires |state| == 16 && 4 * round + 4 <= |roundKeys|
  {
    && (forall k :: 0 <= k < 4 * columns && k < 16 ==> state[k] == KeyedByte(s, roundKeys, round, k))
    && (forall k :: 4 * columns <= k < 16 ==> state[k] == s[k])
  }

  method AddKeyColumn(state: array<bv8>, ghost s: Block, roundKeys: seq<bv32>, round: nat, column: nat)
    requires state.Length == 16 && 4 * round + 4 <= |roundKeys| && column < 4
    requires KeyedUpTo(state[..], s, roundKeys, round, column)
    modifies state
    ensures KeyedUpTo(state[..], s, roundKeys, round, column + 1)
  {
    hide Add;
    hide WordByte;
    hide KeyedByte;
    var word, i := roundKeys[4 * round + column], 4 * column;
    KeyedColumn(s, roundKeys, round, column);
    SetFour(state, i, i + 1, i + 2, i + 3, Add(state[i], WordByte(word, 0)), Add(state[i + 1], WordByte(word, 1)),
            Add(state[i + 2], WordByte(word, 2)), Add(state[i + 3], WordByte(word, 3)));
  }

  lemma KeyedColumn(s: Block, roundKeys: seq<bv32>, round: nat, column: nat)
    requires 4 * round + 4 <= |roundKeys| && column < 4
    ensures var i, word := 4 * column, roundKeys[4 * round + column];
            && KeyedByte(s, roundKeys, round, i) == Add(s[i], WordByte(word, 0))
            && KeyedByte(s, roundKeys, round, i + 1) == Add(s[i + 1], WordByte(word, 1))
            && KeyedByte(s, roundKeys, round, i + 2) == Add(s[i + 2], WordByte(word, 2))
            && KeyedByte(s, roundKeys, round, i + 3) == Add(s[i + 3], WordByte(word, 3))
  {
    hide Add;
    hide WordByte;
    var i := 4 * column;
    assert i / 4 == column && (i + 1) / 4 == column && (i + 2) / 4 == column && (i + 3) / 4 == column;
  }

  lemma KeyedState(s: Block, roundKeys: seq<bv32>, round: nat)
    requires 4 * round + 4 <= |roundKeys|
    ensures forall k :: 0 <= k < 16 ==> AddRoundKey(s, roundKeys, round)[k] == KeyedByte(s, roundKeys, round, k)
  {
    hide Add;
    hide WordByte;
  }

  function KeyedByte(s: Block, roundKeys: seq<bv32>, round: nat, k: nat): bv8
    requires 4 * round + 4 <= |roundKeys| && k < 16
  {
    Add(s[k], WordByte(roundKeys[4 * round + k / 4], k % 4))
  }

  method MixColumnAt(a0: bv8, a1: bv8, a2: bv8, a3: bv8) returns (b0: bv8, b1: bv8, b2: bv8, b3: bv8)
    ensures [b0, b1, b2, b3] == MixColumn(a0, a1, a2, a3)
  {
    hide Product;
    hide Add4;
    var a0By2 := Multiply(a0, 2);
    var a1By3 := Multiply(a1, 3);
    var a1By2 := Multiply(a1, 2);
    var a2By3 := Multiply(a2, 3);
    var a2By2 := Multiply(a2, 2);
    var a3By3 := Multiply(a3, 3);
    var a0By3 := Multiply(a0, 3);
    var a3By2 := Multiply(a3, 2);
    b0 := Add4(a0By2, a1By3, a2, a3);
    b1 := Add4(a0, a1By2, a2By3, a3);
    b2 := Add4(a0, a1, a2By2, a3By3);
    b3 := Add4(a0By3, a1, a2, a3By2);
  }

  method InvMixColumnAt(a0: bv8, a1: bv8, a2: bv8, a3: bv8) returns (b0: bv8, b1: bv8, b2: bv8, b3: bv8)
    ensures [b0, b1, b2, b3] == InvMixColumn(a0, a1, a2, a3)
  {
    hide Product;
    hide Add4;
    b0 := InvMixRowAt(a0, 14, a1, 11, a2, 13, a3, 9);
    b1 := InvMixRowAt(a0, 9, a1, 14, a2, 11, a3, 13);
    b2 := InvMixRowAt(a0, 13, a1, 9, a2, 14, a3, 11);
    b3 := InvMixRowAt(a0, 11, a1, 13, a2, 9, a3, 14);
  }

  method InvMixRowAt(a0: bv8, c0: bv8, a1: bv8, c1: bv8, a2: bv8, c2: bv8, a3: bv8, c3: bv8) returns (b: bv8)
    ensures b == Add4(Product(a0, c0), Product(a1, c1), Product(a2, c2), Product(a3, c3))
  {
    hide Product;
    hide Add4;
    var p0 := Multiply(a0, c0);
    var p1 := Multiply(a1, c1);
    var p2 := Multiply(a2, c2);
    var p3 := Multiply(a3, c3);
    b := Add4(p0, p1, p2, p3);
  }

  /** The image of the column that starts at byte i. */
  function ColumnImage(s: Block, inverse: bool, i: nat): (column: seq<bv8>)
    requires i + 4 <= 16
    ensures |column| == 4
  {
    hide *;
    if inverse then InvMixColumn(s[i], s[i + 1], s[i + 2], s[i + 3]) else MixColumn(s[i], s[i + 1], s[i + 2], s[i + 3])
  }

  function SetColumn(s: Block, i: nat, column: seq<bv8>): Block
    requires i + 4 <= 16 && |column| == 4
  {
    s[i := column[0]][i + 1 := column[1]][i + 2 := column[2]][i + 3 := column[3]]
  }

  /** The state with its first n columns replaced by their images. */
  function WithColumns(s: Block, inverse: bool, n: nat): Block
    requires n <= 4
  {
    if n == 0 then s else SetColumn(WithColumns(s, inverse, n - 1), 4 * n - 4, ColumnImage(s, inverse, 4 * n - 4))
  }

  lemma {:induction false} LaterColumns(s: Block, inverse: bool, n: nat, k: nat)
    requires n <= 4 && 4 * n <= k < 16
    ensures WithColumns(s, inverse, n)[k] == s[k]
    decreases n
  {
    hide ColumnImage;
    if n > 0 {
      LaterColumns(s, inverse, n - 1, k);
    }
  }

  lemma {:induction false} EarlierColumns(s: Block, inverse: bool, n: nat, c: nat, r: nat)
    requires c < n <= 4 && r < 4
    ensures WithColumns(s, inverse, n)[4 * c + r] == ColumnImage(s, inverse, 4 * c)[r]
    decreases n
  {
    hide ColumnImage;
    if c < n - 1 {
      EarlierColumns(s, inverse, n - 1, c, r);
    }
  }

  lemma AllColumns(s: Block, inverse: bool)
    ensures WithColumns(s, inverse, 4) == if inverse then InvMixColumns(s) else MixColumns(s)
  {
    hide MixColumn;
    hide InvMixColumn;
    hide WithColumns;
    ColumnSlice(s, inverse, 0);
    ColumnSlice(s, inverse, 1);
    ColumnSlice(s, inverse, 2);
    ColumnSlice(s, inverse, 3);
    var all := WithColumns(s, inverse, 4);
    assert all == all[0..4] + all[4..8] + all[8..12] + all[12..16];
  }

  lemma ColumnSlice(s: Block, inverse: bool, c: nat)
    requires c < 4
    ensures WithColumns(s, inverse, 4)[4 * c..4 * c + 4] == ColumnImage(s, inverse, 4 * c)
  {
    hide *;
    EarlierColumns(s, inverse, 4, c, 0);
    EarlierColumns(s, inverse, 4, c, 1);
    EarlierColumns(s, inverse, 4, c, 2);
    EarlierColumns(s, inverse, 4, c, 3);
  }

  lemma NextColumn(s: Block, inverse: bool, n: nat)
    requires n < 4
    ensures WithColumns(s, inverse, n + 1) == SetColumn(WithColumns(s, inverse, n), 4 * n, ColumnImage(s, inverse, 4 * n))
  {
    hide ColumnImage;
    hide SetColumn;
  }

  lemma SetColumnIs(t: Block, i: nat, b0: bv8, b1: bv8, b2: bv8, b3: bv8)
    requires i + 4 <= 16
    ensures SetColumn(t, i, [b0, b1, b2, b3]) == t[i := b0][i + 1 := b1][i + 2 := b2][i + 3 := b3]
  {
  }

  lemma ColumnImageIs(s: Block, inverse: bool, i: nat)
    requires i + 4 <= 16
    ensures ColumnImage(s, inverse, i) == if inverse then InvMixColumn(s[i], s[i + 1], s[i + 2], s[i + 3])
                                          else MixColumn(s[i], s[i + 1], s[i + 2], s[i + 3])
  {
    hide MixColumn;
    hide InvMixColumn;
  }

  method MixColumnsInPlace(state: array<bv8>)
    requires state.Length == 16
    modifies state
    ensures state[..] == MixColumns(old(state[..]))
  {
    hide *;
    ghost var s := state[..];
    assert state[..] == WithColumns(s, false, 0) by { NoColumns(s, false); }
    for column := 0 to 4
      invariant state[..] == WithColumns(s, false, column)
    {
      var i := 4 * column;
      LaterColumns(s, false, column, i);
      LaterColumns(s, false, column, i + 1);
      LaterColumns(s, false, column, i + 2);
      LaterColumns(s, false, column, i + 3);
      assert state[i] == state[..][i] && state[i + 1] == state[..][i + 1];
      assert state[i + 2] == state[..][i + 2] && state[i + 3] == state[..][i + 3];
      var b0, b1, b2, b3 := MixColumnAt(state[i], state[i + 1], state[i + 2], state[i + 3]);
      SetFour(state, i, i + 1, i + 2, i + 3, b0, b1, b2, b3);
      ColumnImageIs(s, false, i);
      SetColumnIs(WithColumns(s, false, column), i, b0, b1, b2, b3);
      NextColumn(s, false, column);
    }
    AllColumns(s, false);
  }

  lemma NoColumns(s: Block, inverse: bool)
    ensures WithColumns(s, inverse, 0) == s
  {
  }

  method InvMixColumnsInPlace(state: array<bv8>)
    requires state.Length == 16
    modifies state
    ensures state[..] == InvMixColumns(old(state[..]))
  {
    hide *;
    ghost var s := state[..];
    assert state[..] == WithColumns(s, true, 0) by { NoColumns(s, true); }
    for column := 0 to 4
      invariant state[..] == WithColumns(s, true, column)
    {
      var i := 4 * column;
      LaterColumns(s, true, column, i);
      LaterColumns(s, true, column, i + 1);
      LaterColumns(s, true, column, i + 2);
      LaterColumns(s, true, column, i + 3);
      assert state[i] == state[..][i] && state[i + 1] == state[..][i + 1];
      assert state[i + 2] == state[..][i + 2] && state[i + 3] == state[..][i + 3];
      var b0, b1, b2, b3 := InvMixColumnAt(state[i], state[i + 1], state[i + 2], state[i + 3]);
      SetFour(state, i, i + 1, i + 2, i + 3, b0, b1, b2, b3);
      ColumnImageIs(s, true, i);
      SetColumnIs(WithColumns(s, true, column), i, b0, b1, b2, b3);
      NextColumn(s, true, column);
    }
    AllColumns(s, true);
  }

  /** One full round, and one round undone. */
  method EncryptRound(state: array<bv8>, roundKeys: seq<bv32>, round: nat)
    requires state.Length == 16 && 4 * round + 4 <= |roundKeys|
    modifies state
    ensures state[..] == AddRoundKey(MixColumns(ShiftRows(SubBytes(old(state[..])))), roundKeys, round)
  {
    hide *;
    SubBytesInPlace(state);
    ShiftRowsInPlace(state);
    MixColumnsInPlace(state);
    AddRoundKeyInPlace(state, roundKeys, round);
  }

  method DecryptRound(state: array<bv8>, roundKeys: seq<bv32>, round: nat)
    requires state.Length == 16 && 4 * round + 4 <= |roundKeys|
    modifies state
    ensures state[..] == InvMixColumns(AddRoundKey(InvSubBytes(InvShiftRows(old(state[..]))), roundKeys, round))
  {
    hide *;
    InvShiftRowsInPlace(state);
    InvSubBytesInPlace(state);
    AddRoundKeyInPlace(state, roundKeys, round);
    InvMixColumnsInPlace(state);
  }

  method EncryptState(cipher: AesBlockCipher, state: array<bv8>)
    requires cipher.Valid() && state.Length == 16
    modifies state
    ensures state[..] == Encrypt(cipher, old(state[..]))
  {
    hide *;
    KeysSuffice(cipher);
    var keys := cipher.roundKeys;
    ghost var plaintext := state[..];
    AddRoundKeyInPlace(state, keys, 0);
    RoundsStep(plaintext, keys, 0);
    for round := 1 to cipher.rounds
      invariant state[..] == Rounds(plaintext, keys, round - 1)
    {
      RoundsStep(plaintext, keys, round);
      EncryptRound(state, keys, round);
    }
    SubBytesInPlace(state);
    ShiftRowsInPlace(state);
    AddRoundKeyInPlace(state, keys, cipher.rounds);
    EncryptIs(cipher, plaintext);
  }

  method DecryptState(cipher: AesBlockCipher, state: array<bv8>)
    requires cipher.Valid() && state.Length == 16
    modifies state
    ensures state[..] == Decrypt(cipher, old(state[..]))
  {
    hide *;
    KeysSuffice(cipher);
    var keys := cipher.roundKeys;
    ghost var ciphertext := state[..];
    AddRoundKeyInPlace(state, keys, cipher.rounds);
    ghost var start := state[..];
    for round := cipher.rounds downto 1
      invariant Unrounds(start, keys, cipher.rounds - 1) == Unrounds(state[..], keys, round - 1)
    {
      UnroundsStep(state[..], keys, round);
      DecryptRound(state, keys, round);
    }
    UnroundsStep(state[..], keys, 0);
    InvShiftRowsInPlace(state);
    InvSubBytesInPlace(state);
    AddRoundKeyInPlace(state, keys, 0);
    DecryptIs(cipher, ciphertext);
  }

  method CopyBlock(block: Block) returns (state: array<bv8>)
    ensures fresh(state) && state.Length == 16 && state[..] == block
  {
    state := new bv8[16](i requires 0 <= i < 16 => block[i]);
  }

  method EncryptBlock(cipher: AesBlockCipher, plaintext: Bytes) returns (r: Result<Bytes>)
    requires cipher.Valid()
    ensures r == if |plaintext| == 16 then Ok(Encrypt(cipher, plaintext)) else Err(InvalidArgument)
  {
    hide *;
    if |plaintext| != 16 {
      return Err(InvalidArgument);
    }
    var state := CopyBlock(plaintext);
    EncryptState(cipher, state);
    r := Ok(state[..]);
  }

  method DecryptBlock(cipher: AesBlockCipher, ciphertext: Bytes) returns (r: Result<Bytes>)
    requires cipher.Valid()
    ensures r == if |ciphertext| == 16 then Ok(Decrypt(cipher, ciphertext)) else Err(InvalidArgument)
  {
    hide *;
    if |ciphertext| != 16 {
      return Err(InvalidArgument);
    }
    var state := CopyBlock(ciphertext);
    DecryptState(cipher, state);
    r := Ok(state[..]);
  }

  lemma KeysSuffice(cipher: AesBlockCipher)
    requires cipher.Valid()
    ensures cipher.rounds > 1 && 4 * cipher.rounds + 4 <= |cipher.roundKeys|
  {
  }

  lemma DecryptIs(cipher: AesBlockCipher, s: Block)
    requires cipher.Valid()
    ensures cipher.rounds > 1 && 4 * cipher.rounds + 4 <= |cipher.roundKeys|
    ensures var inner := Unrounds(AddRoundKey(s, cipher.roundKeys, cipher.rounds), cipher.roundKeys, cipher.rounds - 1);
            Decrypt(cipher, s) == AddRoundKey(InvSubBytes(InvShiftRows(inner)), cipher.roundKeys, 0)
  {
    hide AddRoundKey;
    hide InvShiftRows;
    hide InvSubBytes;
    hide Unrounds;
  }

  lemma EncryptIs(cipher: AesBlockCipher, s: Block)
    requires cipher.Valid()
    ensures cipher.rounds > 1 && 4 * cipher.rounds + 4 <= |cipher.roundKeys|
    ensures var inner := Rounds(s, cipher.roundKeys, cipher.rounds - 1);
            Encrypt(cipher, s) == AddRoundKey(ShiftRows(SubBytes(inner)), cipher.roundKeys, cipher.rounds)
  {
    hide AddRoundKey;
    hide ShiftRows;
    hide SubBytes;
    hide Rounds;
  }

  // ----- key expansion -----

  function LoadBe32(a: bv8, b: bv8, c: bv8, d: bv8): bv32 {
    ((a as bv32) << 24) | ((b as bv32) << 16) | ((c as bv32) << 8) | (d as bv32)
  }

  function RotWord(word: bv32): bv32 {
    (word << 8) | (word >> 24)
  }

  function SubWord(word: bv32): bv32 {
    LoadBe32(Sbox(WordByte(word, 0)), Sbox(WordByte(word, 1)), Sbox(WordByte(word, 2)), Sbox(WordByte(word, 3)))
  }

  /** The round constants x^(j-1), as bytes. */
  const RCON: seq<bv8> := [0x01, 0x02, 0x04, 0x08, 0x10, 0x20, 0x40, 0x80, 0x1b, 0x36]

  function RconWord(j: nat): bv32
    requires 1 <= j <= 10
  {
    (RCON[j - 1] as bv32) << 24
  }

  function AddWord(a: bv32, b: bv32): bv32 {
    a ^ b
  }

  predicate IsKeySize(n: nat) {
    n == 16 || n == 24 || n == 32
  }

  /** The previous word, transformed where the expansion asks for it. */
  function Transformed(previous: bv32, keyWords: nat, i: nat): bv32
    requires keyWords in {4, 6, 8} && keyWords <= i < 4 * (keyWords + 7)
  {
    if i % keyWords == 0 then
      RconIndex(i, keyWords);
      AddWord(SubWord(RotWord(previous)), RconWord(i / keyWords))
    else if keyWords > 6 && i % keyWords == 4 then SubWord(previous)
    else previous
  }

  /** The constant x^(j - 1) in GF(2^8). */
  function Rcon(j: nat): bv8 {
    if j <= 1 then 1 else Xtime(Rcon(j - 1))
  }

  /** The table entries are the successive powers of x the standard asks for. */
  lemma {:induction false} RconTable(j: nat)
    requires 1 <= j <= 10
    ensures RCON[j - 1] == Rcon(j)
    decreases j
  {
    if j > 1 {
      RconTable(j - 1);
    }
  }

  /** Word i of the key schedule of section 5.2 of FIPS 197. */
  function ScheduleWord(key: Bytes, i: nat): bv32
    requires IsKeySize(|key|) && i < |key| + 28
  {
    var keyWords := |key| / 4;
    if i < keyWords then LoadBe32(key[4 * i], key[4 * i + 1], key[4 * i + 2], key[4 * i + 3])
    else AddWord(ScheduleWord(key, i - keyWords), Transformed(ScheduleWord(key, i - 1), keyWords, i))
  }

  /** Fills the schedule word by word; other key sizes are refused. */
  method Create(key: Bytes) returns (r: Result<AesBlockCipher>)
    ensures r.Ok? <==> IsKeySize(|key|)
    ensures r.Ok? ==> r.value.Valid() && r.value == Expanded(key)
  {
    if |key| != 16 && |key| != 24 && |key| != 32 {
      return Err(InvalidKey);
    }
    hide *;
    var keyWords := |key| / 4;
    var rounds := keyWords + 6;
    var roundKeyWords := 4 * (rounds + 1);
    var roundKeys := new bv32[60](_ => 0);
    assert IsKeySize(|key|) by { KeySize(|key|); }
    LoadKey(key, roundKeys);
    for i := keyWords to roundKeyWords
      invariant Scheduled(key, roundKeys[..], i)
    {
      ScheduledStep(key, roundKeys[..], i);
      ghost var before := roundKeys[..];
      var temp := TransformWord(roundKeys[i - 1], keyWords, i);
      var word := AddWord(roundKeys[i - keyWords], temp);
      roundKeys[i] := word;
      assert roundKeys[..] == before[i := word];
    }
    r := Ok(AesBlockCipher(roundKeys[..], rounds));
    AllScheduled(key, r.value);
  }

  lemma KeySize(n: nat)
    ensures IsKeySize(n) <==> n == 16 || n == 24 || n == 32
  {
  }

  /** The cipher of a key: its schedule, the rest of the sixty words zero, and the number of rounds. */
  function Expanded(key: Bytes): AesBlockCipher
    requires IsKeySize(|key|)
  {
    AesBlockCipher(seq(60, i requires 0 <= i < 60 && IsKeySize(|key|) => if i < |key| + 28 then ScheduleWord(key, i) else 0),
                   |key| / 4 + 6)
  }

  /** The first i words hold the schedule, the others are still zero. */
  ghost predicate Scheduled(key: Bytes, words: seq<bv32>, i: nat)
    requires IsKeySize(|key|)
  {
    && |words| == 60 && i <= |key| + 28
    && (forall k :: 0 <= k < i ==> words[k] == ScheduleWord(key, k))
    && (forall k :: i <= k < 60 ==> words[k] == 0)
  }

  lemma ScheduledStep(key: Bytes, words: seq<bv32>, i: nat)
    requires IsKeySize(|key|) && Scheduled(key, words, i) && |key| / 4 <= i < |key| + 28
    ensures |words| == 60 && |key| / 4 in {4, 6, 8} && i < 4 * (|key| / 4 + 7) && i < 60
    ensures var word := AddWord(words[i - |key| / 4], Transformed(words[i - 1], |key| / 4, i));
            Scheduled(key, words[i := word], i + 1)
  {
    hide AddWord;
    hide Transformed;
    hide ScheduleWord;
    hide LoadBe32;
    ScheduleStep(key, i);
  }

  lemma AllScheduled(key: Bytes, cipher: AesBlockCipher)
    requires IsKeySize(|key|) && Scheduled(key, cipher.roundKeys, |key| + 28) && cipher.rounds == |key| / 4 + 6
    ensures cipher.Valid() && cipher == Expanded(key)
  {
    hide ScheduleWord;
  }

  /** The key itself is the start of the schedule. */
  method LoadKey(key: Bytes, roundKeys: array<bv32>)
    requires IsKeySize(|key|) && roundKeys.Length == 60
    requires forall k :: 0 <= k < 60 ==> roundKeys[k] == 0
    modifies roundKeys
    ensures Scheduled(key, roundKeys[..], |key| / 4)
  {
    hide LoadBe32;
    hide Transformed;
    hide ScheduleWord;
    for i := 0 to |key| / 4
      invariant forall k :: 0 <= k < i ==> roundKeys[k] == ScheduleWord(key, k)
      invariant forall k :: i <= k < 60 ==> roundKeys[k] == 0
    {
      ScheduleStep(key, i);
      roundKeys[i] := LoadBe32(key[4 * i], key[4 * i + 1], key[4 * i + 2], key[4 * i + 3]);
    }
  }

  method TransformWord(previous: bv32, keyWords: nat, i: nat) returns (temp: bv32)
    requires keyWords in {4, 6, 8} && keyWords <= i < 4 * (keyWords + 7)
    ensures temp == Transformed(previous, keyWords, i)
  {
    hide RotWord;
    hide SubWord;
    hide AddWord;
    hide RconWord;
    temp := previous;
    if i % keyWords == 0 {
      RconIndex(i, keyWords);
      temp := AddWord(SubWord(RotWord(temp)), RconWord(i / keyWords));
    } else if keyWords > 6 && i % keyWords == 4 {
      temp := SubWord(temp);
    }
  }

  lemma RconIndex(i: nat, keyWords: nat)
    requires keyWords in {4, 6, 8} && keyWords <= i < 4 * (keyWords + 7)
    ensures 1 <= i / keyWords <= 10
  {
  }

  lemma ScheduleStep(key: Bytes, i: nat)
    requires IsKeySize(|key|) && i < |key| + 28
    ensures var keyWords := |key| / 4;
            ScheduleWord(key, i)
              == if i < keyWords then LoadBe32(key[4 * i], key[4 * i + 1], key[4 * i + 2], key[4 * i + 3])
                 else AddWord(ScheduleWord(key, i - keyWords), Transformed(ScheduleWord(key, i - 1), keyWords, i))
  {
    hide Transformed;
    hide LoadBe32;
    hide AddWord;
  }

  // ----- exclusive or of blocks, for the modes -----

  function XorBlock(a: Block, b: Block): Block {
    seq(16, i requires 0 <= i < 16 => Add(a[i], b[i]))
  }

  lemma XorBlockByte(a: Block, b: Block, i: nat)
    requires i < 16
    ensures XorBlock(a, b)[i] == a[i] ^ b[i]
  {
  }

  lemma XorBlockTwice(a: Block, b: Block)
    ensures XorBlock(XorBlock(a, b), b) == a
  {
    hide Add;
    forall i | 0 <= i < 16
      ensures Add(Add(a[i], b[i]), b[i]) == a[i]
    {
      AddTwice(a[i], b[i]);
    }
  }
}
