/** The standard one-block example of both hashes: the three bytes "abc". */
module Sha2Vectors {
  import opened Sha2Spec
  import opened Sha2Rounds
  import opened Chunks
  import NumberTheory

  // ----- SHA-256 -----

  /** The schedule of the padded message. */
  function Word256(t: nat): bv32
    requires t < 64
  {
    if t < 8 then Of8(t, 0x61626380, 0x00000000, 0x00000000, 0x00000000, 0x00000000, 0x00000000, 0x00000000, 0x00000000)
    else if t < 16 then Of8(t - 8, 0x00000000, 0x00000000, 0x00000000, 0x00000000, 0x00000000, 0x00000000, 0x00000000, 0x00000018)
    else if t < 24 then Of8(t - 16, 0x61626380, 0x000f0000, 0x7da86405, 0x600003c6, 0x3e9d7b78, 0x0183fc00, 0x12dcbfdb, 0xe2e2c38e)
    else if t < 32 then Of8(t - 24, 0xc8215c1a, 0xb73679a2, 0xe5bc3909, 0x32663c5b, 0x9d209d67, 0xec8726cb, 0x702138a4, 0xd3b7973b)
    else if t < 40 then Of8(t - 32, 0x93f5997f, 0x3b68ba73, 0xaff4ffc1, 0xf10a5c62, 0x0a8b3996, 0x72af830a, 0x9409e33e, 0x24641522)
    else if t < 48 then Of8(t - 40, 0x9f47bf94, 0xf0a64f5a, 0x3e246a79, 0x27333ba3, 0x0c4763f2, 0x840abf27, 0x7a290d5d, 0x065c43da)
    else if t < 56 then Of8(t - 48, 0xfb3e89cb, 0xcc7617db, 0xb9e66c34, 0xa9993667, 0x84badedd, 0xc21462bc, 0x1487472c, 0xb20f7a99)
    else Of8(t - 56, 0xef57b9cd, 0xebe6b238, 0x9fe3095e, 0x78bc8d4b, 0xa43fcf15, 0x668b2ff8, 0xeeaba2cc, 0x12b1edeb)
  }

  /** The working variable a before and after every round, from the initial d, c, b, a on. */
  function A256(t: nat): bv32
    requires t < 68
  {
    if t < 8 then Of8(t, 0xa54ff53a, 0x3c6ef372, 0xbb67ae85, 0x6a09e667, 0x5d6aebcd, 0x5a6ad9ad, 0xc8c347a7, 0xd550f666)
    else if t < 16 then Of8(t - 8, 0x04409a6a, 0x2b4209f5, 0xe5030380, 0x85a07b5f, 0x8e04ecb9, 0x8c87346b, 0x4798a3f4, 0xf71fc5a9)
    else if t < 24 then Of8(t - 16, 0x87912990, 0xd932eb16, 0xc0645fde, 0xb0fa238e, 0x21da9a9b, 0xc2fbd9d1, 0xfe777bbf, 0xe1f20c33)
    else if t < 32 then Of8(t - 24, 0x9dc68b63, 0xc2606d6d, 0xa7a3623f, 0xc5d53d8d, 0x1c2c2838, 0xcde8037d, 0xb62ec4bc, 0x77d37528)
    else if t < 40 then Of8(t - 32, 0x363482c9, 0xa0060b30, 0xea992a22, 0x73b33bf5, 0x98e12507, 0xfe604df5, 0xa9a7738c, 0x65a0cfe4)
    else if t < 48 then Of8(t - 40, 0x41a65cb1, 0x34df1604, 0x6dc57a8a, 0x79ea687a, 0xd6670766, 0xdf46652f, 0x17aa0dfe, 0x9d4baf93)
    else if t < 56 then Of8(t - 48, 0x26628815, 0x72ab4b91, 0xa14c14b0, 0x4172328d, 0x05757ceb, 0xf11bfaa8, 0x7a0508a1, 0x886e7a22)
    else if t < 64 then Of8(t - 56, 0x101fd28f, 0xf5702fdb, 0x3ec45cdb, 0x38cc9913, 0xfcd1887b, 0xc062d46f, 0xffb70472, 0xb6ae8fff)
    else Of8(t - 64, 0xb85e2ce9, 0x04d24d6c, 0xd39a2165, 0x506e3058, 0x00000000, 0x00000000, 0x00000000, 0x00000000)
  }

  /** The working variable e, from the initial h, g, f, e on. */
  function E256(t: nat): bv32
    requires t < 68
  {
    if t < 8 then Of8(t, 0x5be0cd19, 0x1f83d9ab, 0x9b05688c, 0x510e527f, 0xfa2a4622, 0x78ce7989, 0xf92939eb, 0x24e00850)
    else if t < 16 then Of8(t - 8, 0x43ada245, 0x714260ad, 0x9b27a401, 0x0c657a79, 0x32ca2d8c, 0x1cc92596, 0x436b23e8, 0x816fd6e9)
    else if t < 24 then Of8(t - 16, 0x1e578218, 0x745a48de, 0x0b92f20c, 0x07590dcd, 0x8034229c, 0x846ee454, 0xcc899961, 0xb0638179)
    else if t < 32 then Of8(t - 24, 0x8ada8930, 0xe1257970, 0x49f5114a, 0xaa47c347, 0x2823ef91, 0x14383d8e, 0xc74c6516, 0xedffbff8)
    else if t < 40 then Of8(t - 32, 0x6112a3b7, 0xade79437, 0x0109ab3a, 0xba591112, 0x9cd9f5f6, 0x59249dd3, 0x085f3833, 0xf4b002d6)
    else if t < 48 then Of8(t - 40, 0x0772a26b, 0xa507a53d, 0xf0781bc8, 0x1efbc0a0, 0x26352d63, 0x838b2711, 0xdecd4715, 0xfda24c2e)
    else if t < 56 then Of8(t - 48, 0xa80f11f0, 0xb7755da1, 0xd57b94a9, 0xfecf0bc6, 0xbd714038, 0x6e5c390c, 0x52f1ccf7, 0x49231c1e)
    else if t < 64 then Of8(t - 56, 0x529e7d00, 0x9f4787c3, 0xe50e1b4f, 0x54cb266b, 0x9b5e906c, 0x7e44008e, 0x6d83bfc6, 0xb21bad3d)
    else Of8(t - 64, 0x961f4894, 0x948d25b6, 0xfb121210, 0x5ef50f24, 0x00000000, 0x00000000, 0x00000000, 0x00000000)
  }

  function State256(t: nat): Vars32
    requires t <= 64
  {
    Vars32(A256(t + 3), A256(t + 2), A256(t + 1), A256(t), E256(t + 3), E256(t + 2), E256(t + 1), E256(t))
  }

  predicate RoundHolds256(t: nat)
    requires t < 64
  {
    Round256(State256(t), K256(t), Word256(t)) == State256(t + 1)
  }

  predicate WordHolds256(t: nat)
    requires 16 <= t < 64
  {
    Next256(Word256(t - 2), Word256(t - 7), Word256(t - 15), Word256(t - 16)) == Word256(t)
  }

  lemma Rounds256From0(t: nat)
    requires 0 <= t < 8
    ensures RoundHolds256(t)
  {
    match t
    case 0 =>
    case 1 =>
    case 2 =>
    case 3 =>
    case 4 =>
    case 5 =>
    case 6 =>
    case _ =>
  }

  lemma Rounds256From8(t: nat)
    requires 8 <= t < 16
    ensures RoundHolds256(t)
  {
    match t
    case 8 =>
    case 9 =>
    case 10 =>
    case 11 =>
    case 12 =>
    case 13 =>
    case 14 =>
    case _ =>
  }

  lemma Rounds256From16(t: nat)
    requires 16 <= t < 24
    ensures RoundHolds256(t)
  {
    match t
    case 16 =>
    case 17 =>
    case 18 =>
    case 19 =>
    case 20 =>
    case 21 =>
    case 22 =>
    case _ =>
  }

  lemma Rounds256From24(t: nat)
    requires 24 <= t < 32
    ensures RoundHolds256(t)
  {
    match t
    case 24 =>
    case 25 =>
    case 26 =>
    case 27 =>
    case 28 =>
    case 29 =>
    case 30 =>
    case _ =>
  }

  lemma Rounds256From32(t: nat)
    requires 32 <= t < 40
    ensures RoundHolds256(t)
  {
    match t
    case 32 =>
    case 33 =>
    case 34 =>
    case 35 =>
    case 36 =>
    case 37 =>
    case 38 =>
    case _ =>
  }

  lemma Rounds256From40(t: nat)
    requires 40 <= t < 48
    ensures RoundHolds256(t)
  {
    match t
    case 40 =>
    case 41 =>
    case 42 =>
    case 43 =>
    case 44 =>
    case 45 =>
    case 46 =>
    case _ =>
  }

  lemma Rounds256From48(t: nat)
    requires 48 <= t < 56
    ensures RoundHolds256(t)
  {
    match t
    case 48 =>
    case 49 =>
    case 50 =>
    case 51 =>
    case 52 =>
    case 53 =>
    case 54 =>
    case _ =>
  }

  lemma Rounds256From56(t: nat)
    requires 56 <= t < 64
    ensures RoundHolds256(t)
  {
    match t
    case 56 =>
    case 57 =>
    case 58 =>
    case 59 =>
    case 60 =>
    case 61 =>
    case 62 =>
    case _ =>
  }

  lemma Words256From16()
    ensures WordHolds256(16) && WordHolds256(17) && WordHolds256(18) && WordHolds256(19)
    ensures WordHolds256(20) && WordHolds256(21) && WordHolds256(22) && WordHolds256(23)
  {
  }

  lemma Words256From24()
    ensures WordHolds256(24) && WordHolds256(25) && WordHolds256(26) && WordHolds256(27)
    ensures WordHolds256(28) && WordHolds256(29) && WordHolds256(30) && WordHolds256(31)
  {
  }

  lemma Words256From32()
    ensures WordHolds256(32) && WordHolds256(33) && WordHolds256(34) && WordHolds256(35)
    ensures WordHolds256(36) && WordHolds256(37) && WordHolds256(38) && WordHolds256(39)
  {
  }

  lemma Words256From40()
    ensures WordHolds256(40) && WordHolds256(41) && WordHolds256(42) && WordHolds256(43)
    ensures WordHolds256(44) && WordHolds256(45) && WordHolds256(46) && WordHolds256(47)
  {
  }

  lemma Words256From48()
    ensures WordHolds256(48) && WordHolds256(49) && WordHolds256(50) && WordHolds256(51)
    ensures WordHolds256(52) && WordHolds256(53) && WordHolds256(54) && WordHolds256(55)
  {
  }

  lemma Words256From56()
    ensures WordHolds256(56) && WordHolds256(57) && WordHolds256(58) && WordHolds256(59)
    ensures WordHolds256(60) && WordHolds256(61) && WordHolds256(62) && WordHolds256(63)
  {
  }

  /** The message, a one bit, zeros, and its length of 24 bits. */
  function Block256(): (block: Bytes)
    ensures |block| == 64
  {
    [0x61, 0x62, 0x63, 0x80] + Zeros(59) + [0x18]
  }

  lemma Loaded256(t: nat)
    requires t < 16
    ensures Load32(Block256(), 4 * t) == Word256(t)
  {
    BlockBytes256();
    hide Block256;
    if t == 0 {
    } else if t < 15 {
      ZeroWord256(t);
    }
  }

  lemma BlockBytes256()
    ensures var b := Block256();
            && b[0] == 0x61 && b[1] == 0x62 && b[2] == 0x63 && b[3] == 0x80 && b[63] == 0x18
            && forall i :: 4 <= i < 63 ==> b[i] == 0
  {
  }

  lemma ZeroWord256(t: nat)
    requires 0 < t < 15
    ensures Word256(t) == 0
  {
  }

  lemma {:induction false} ScheduleIs256(t: nat)
    requires t < 64
    ensures Schedule256(Block256(), t) == Word256(t)
  {
    hide *;
    ScheduleStep256(Block256(), t);
    if t < 16 {
      Loaded256(t);
    } else {
      ScheduleIs256(t - 2);
      ScheduleIs256(t - 7);
      ScheduleIs256(t - 15);
      ScheduleIs256(t - 16);
      NextWord256(t);
    }
  }

  lemma WordsHold256(t: nat)
    requires 16 <= t < 64
    ensures WordHolds256(t)
  {
    hide *;
    if t < 40 {
      EarlyWords256(t);
    } else {
      LateWords256(t);
    }
  }

  lemma EarlyWords256(t: nat)
    requires 16 <= t < 40
    ensures WordHolds256(t)
  {
    hide *;
    if t < 24 {
      Words256From16();
    } else if t < 32 {
      Words256From24();
    } else {
      Words256From32();
    }
  }

  lemma LateWords256(t: nat)
    requires 40 <= t < 64
    ensures WordHolds256(t)
  {
    hide *;
    if t < 48 {
      Words256From40();
    } else if t < 56 {
      Words256From48();
    } else {
      Words256From56();
    }
  }

  lemma NextWord256(t: nat)
    requires 16 <= t < 64
    ensures Next256(Word256(t - 2), Word256(t - 7), Word256(t - 15), Word256(t - 16)) == Word256(t)
  {
    WordsHold256(t);
    hide Next256;
    hide Word256;
  }

  lemma {:induction false} RoundsAre256(t: nat)
    requires t <= 64
    ensures Rounds256(State256(0), Block256(), t) == State256(t)
  {
    hide *;
    RoundsStep256(State256(0), Block256(), t);
    if t > 0 {
      RoundsAre256(t - 1);
      ScheduleIs256(t - 1);
      NextState256(t - 1);
    }
  }

  lemma NextState256(t: nat)
    requires t < 64
    ensures Round256(State256(t), K256(t), Word256(t)) == State256(t + 1)
  {
    assert RoundHolds256(t) by {
      hide *;
      if t < 8 {
        Rounds256From0(t);
      } else if t < 16 {
        Rounds256From8(t);
      } else if t < 24 {
        Rounds256From16(t);
      } else if t < 32 {
        Rounds256From24(t);
      } else if t < 40 {
        Rounds256From32(t);
      } else if t < 48 {
        Rounds256From40(t);
      } else if t < 56 {
        Rounds256From48(t);
      } else {
        Rounds256From56(t);
      }
    }
    hide Round256;
    hide State256;
    hide K256;
    hide Word256;
  }

  function DigestWords256(): Words {
    [0xba7816bf, 0x8f01cfea, 0x414140de, 0x5dae2223,
     0xb00361a3, 0x96177a9c, 0xb410ff61, 0xf20015ad]
  }

  lemma WordBack32(w: bv32)
    ensures Word32(w as nat) == w
  {
    WordRange32(w);
    NumberTheory.ModSmall(w as nat, 0x100000000);
  }

  lemma WordRange32(w: bv32)
    ensures 0 <= w as int < 0x100000000
  {
  }

  lemma StartIs256()
    ensures |SHA256_INITIAL| == 8 && Start256(SHA256_INITIAL) == State256(0)
  {
    WordBack32(0x6a09e667);
    WordBack32(0xbb67ae85);
    WordBack32(0x3c6ef372);
    WordBack32(0xa54ff53a);
    WordBack32(0x510e527f);
    WordBack32(0x9b05688c);
    WordBack32(0x1f83d9ab);
    WordBack32(0x5be0cd19);
    hide Word32;
  }

  lemma SumIs256()
    ensures Sum256(State256(0), State256(64)) == DigestWords256()
  {
  }

  lemma CompressedIs256()
    ensures Compress256(SHA256_INITIAL, Block256()) == DigestWords256()
  {
    hide *;
    StartIs256();
    CompressIs256(SHA256_INITIAL, Block256());
    RoundsAre256(64);
    SumIs256();
  }

  lemma PaddedIs256()
    ensures [0x61, 0x62, 0x63] + Padding(SHA256, 3) == Block256()
  {
    LengthIs(8);
    PaddingParts256();
    hide *;
    Regroup(Zeros(52), Zeros(7));
    ZerosJoin(52, 7);
    BlockIs256();
  }

  lemma BlockIs256()
    ensures Block256() == [0x61, 0x62, 0x63, 0x80] + Zeros(59) + [0x18]
  {
  }

  lemma PaddingParts256()
    ensures Padding(SHA256, 3) == [0x80] + Zeros(52) + BeBytes(24, 8)
  {
    hide BeBytes;
    hide Zeros;
    assert ZeroCount(SHA256, 3) == 52;
  }

  lemma OneBlock256()
    ensures Hash(SHA256, [0x61, 0x62, 0x63]) == Digest(DigestWords256(), 4)
  {
    PaddedIs256();
    CompressedIs256();
    hide Padding;
    hide Digest;
    hide Compress256;
    hide DigestWords256;
    hide Block256;
    assert Block256()[..64] == Block256() && Block256()[64..] == [];
  }

  /** The digest of "abc", as eight words. */
  lemma AbcDigest256()
    ensures Hash(SHA256, [0x61, 0x62, 0x63])
         == BeBytes(0xba7816bf, 4) + BeBytes(0x8f01cfea, 4) + BeBytes(0x414140de, 4) + BeBytes(0x5dae2223, 4)
            + BeBytes(0xb00361a3, 4) + BeBytes(0x96177a9c, 4) + BeBytes(0xb410ff61, 4) + BeBytes(0xf20015ad, 4)
  {
    OneBlock256();
    DigestOfEight(DigestWords256(), 4);
    hide Hash;
    hide Digest;
    hide BeBytes;
  }

  // ----- SHA-512 -----

  /** The schedule of the padded message. */
  function Word512(t: nat): bv64
    requires t < 80
  {
    if t < 8 then Of8(t, 0x6162638000000000, 0x0000000000000000, 0x0000000000000000, 0x0000000000000000,
                      0x0000000000000000, 0x0000000000000000, 0x0000000000000000, 0x0000000000000000)
    else if t < 16 then Of8(t - 8, 0x0000000000000000, 0x0000000000000000, 0x0000000000000000, 0x0000000000000000,
                            0x0000000000000000, 0x0000000000000000, 0x0000000000000000, 0x0000000000000018)
    else if t < 24 then Of8(t - 16, 0x6162638000000000, 0x00030000000000c0, 0x0a9699a24c700003, 0x00000c0060000603,
                            0x549ef62639858996, 0x00c0003300003c00, 0x1497007a8a0e9dbc, 0x62e56500cc0780f0)
    else if t < 32 then Of8(t - 24, 0x7760dd475a538797, 0xf1554b711c1c0003, 0xca2993a4345d9ff2, 0x5e0e66b5c783dd32,
                            0xe25a625d00494b62, 0x9f44486fb1e4fbd2, 0xb31b8c2b06085f2f, 0x0e987660934142f6)
    else if t < 40 then Of8(t - 32, 0xa4af2cfd09fbb924, 0xad289e2e0bd53186, 0x3c74563aa2f9673e, 0x6ccdcd14cc14b53f,
                            0xc3f925b337f22bde, 0x5bcc77a75ad95b54, 0x3ec2257adca09a52, 0x28246960001fc5eb)
    else if t < 48 then Of8(t - 40, 0x04e33a75ce2be88a, 0x7d5314b3c359e0e7, 0xaef7a285ff251266, 0x0b8472581deea04f,
                            0xb174e26eddc7b033, 0x5d63bae58ddd88de, 0x4c044007b744ccbb, 0xe6a9aa4d74dc7d43)
    else if t < 56 then Of8(t - 48, 0xebeaf1237248019c, 0x361e80b2d00f3193, 0x2e9839125df3b175, 0x3319629293ad5363,
                            0x9cbc5d89ac1b89d5, 0x275e23ffeeca50b7, 0x3b80d680bf69ef58, 0x0d0696933945a125)
    else if t < 64 then Of8(t - 56, 0x7533eabcb786ff00, 0xb89826cee6fbf0e5, 0x249b4fbcad623e9f, 0x4aea9df2b02d6f1e,
                            0x2cc57475a55e8d8f, 0xb2574ae938d8be89, 0xc1b35a57b16d6aea, 0xcc4918b5949206bb)
    else if t < 72 then Of8(t - 64, 0x5099c3add79f90ec, 0x5ea81d78e7660bf1, 0xebee6267405ac2a9, 0xb01f21926108a4ab,
                            0x786433dd2fe65556, 0xc54a6eaa24a0552c, 0xb3c8f1530bdbaa9e, 0xbb8abfe56f469338)
    else Of8(t - 72, 0xf63d4265cc1c5a78, 0xbe8355ea73129afb, 0x49e2db8ebdcfbeb5, 0x82269d4a883a3d99,
             0xfdf53df3011f362b, 0x464af5671d71c12e, 0xe449b68198ec611c, 0x92aeeed1a7bcf7d2)
  }

  /** The working variable a before and after every round, from the initial d, c, b, a on. */
  function A512(t: nat): bv64
    requires t < 84
  {
    if t < 8 then Of8(t, 0xa54ff53a5f1d36f1, 0x3c6ef372fe94f82b, 0xbb67ae8584caa73b, 0x6a09e667f3bcc908,
                      0xf6afceb8bcfcddf5, 0x1320f8c9fb872cc0, 0xebcffc07203d91f3, 0x5a83cb3e80050e82)
    else if t < 16 then Of8(t - 8, 0xb680953951604860, 0xaf573b02403e89cd, 0xc4875b0c7abc076b, 0x8093d195e0054fa3,
                            0xf1eca5544cb89225, 0x81782d4a5db48f03, 0x69854c4aa0f25b59, 0xdb0a9963f80c2eaa)
    else if t < 24 then Of8(t - 16, 0x5e41214388186c14, 0x44249631255d2ca0, 0xfa967eed85a08028, 0x0ae07c86b1181c75,
                            0xcaf81a425d800537, 0x4725be249ad19e6b, 0x3c4b4104168e3edb, 0x9a3fb4d38ab6cf06)
    else if t < 32 then Of8(t - 24, 0x8dc5ae65569d3855, 0xda34d6673d452dcf, 0x3e2644567b709a78, 0x4f6877b58fe55484,
                            0x9aff71163fa3a940, 0x0bc5f791f8e6816b, 0x884c3bc27bc4f941, 0xeab4a9e5771b8d09)
    else if t < 40 then Of8(t - 32, 0xe62349090f47d30a, 0x74bf40f869094c63, 0x4c4fbbb75f1873a6, 0xff4d3f1f0d46a736,
                            0xa0509015ca08c8d4, 0x60d4e6995ed91fe6, 0x2c59ec7743632621, 0x1a081afc59fdbc2c)
    else if t < 48 then Of8(t - 40, 0x88df85b0bbe77514, 0x002bb8e4cd989567, 0xb3bb8542b3376de5, 0x8e01e125b855d225,
                            0xb01521dd6a6be12c, 0xe96f89dd48cbd851, 0xbc05ba8de5d3c480, 0x35d7e7f41defcbd5)
    else if t < 56 then Of8(t - 48, 0xc47c9d5c7ea8a234, 0x021fbadbabab5ac6, 0xf61e672694de2d67, 0x6b69fc1bb482feac,
                            0x571f323d96b3a047, 0xca9bd862c5050918, 0x813a43dd2c502043, 0xd43f83727325dd77)
    else if t < 64 then Of8(t - 56, 0x03df11b32d42e203, 0xd63f68037ddf06aa, 0xf650857b5babda4d, 0x63b460e42748817e,
                            0x7a52912943d52b05, 0x4b81c3aec976ea4b, 0x581ecb3355dcd9b8, 0x2c074484ef1eac8c)
    else if t < 72 then Of8(t - 64, 0x3857dfd2fc37d3ba, 0xcfcd928c5424e2b6, 0xa81dedbb9f19e643, 0xab44e86276478d85,
                            0x5a806d7e9821a501, 0xeeb9c21bb0102598, 0x46c4210ab2cc155d, 0x54ba35cf56a0340e)
    else if t < 80 then Of8(t - 72, 0x181839d609c79748, 0xfb6aaae5d0b6a447, 0x7652c579cb60f19c, 0xf15e9664b2803575,
                            0x358406d165aee9ab, 0x20878dcd29cdfaf5, 0x33d48dabb5521de2, 0xc8960e6be864b916)
    else Of8(t - 80, 0x654ef9abec389ca9, 0xd67806db8b148677, 0x10d9c4c4295599f6, 0x73a54f399fa4b1b2,
             0x0000000000000000, 0x0000000000000000, 0x0000000000000000, 0x0000000000000000)
  }

  /** The working variable e, from the initial h, g, f, e on. */
  function E512(t: nat): bv64
    requires t < 84
  {
    if t < 8 then Of8(t, 0x5be0cd19137e2179, 0x1f83d9abfb41bd6b, 0x9b05688c2b3e6c1f, 0x510e527fade682d1,
                      0x58cb02347ab51f91, 0xc3d4ebfd48650ffa, 0xdfa9b239f2697812, 0x0b47b4bb1928990e)
    else if t < 16 then Of8(t - 8, 0x745aca4a342ed2e2, 0x96f60209b6dc35ba, 0x5a6c781f54dcc00c, 0x86f67263a0f0ec0a,
                            0xd0403c398fc40002, 0x00091f460be46c52, 0xd375471bde1ba3f4, 0x475975b91a7a462c)
    else if t < 24 then Of8(t - 16, 0xcdf3bff2883fc9d9, 0x860acf9effba6f61, 0x874bfe5f6aae9f2f, 0xa77b7c035dd4c161,
                            0x2deecc6b39d64d78, 0xf47e8353f8047455, 0x29695fd88d81dbd0, 0xf14998dd5f70767e)
    else if t < 32 then Of8(t - 24, 0x4bb9e66d1145bfdc, 0x8e30ff09ad488753, 0x0ac2b11da8f571c6, 0xc66005f87db55233,
                            0xd3ecf13769180e6f, 0x6ddf1fd7edcce336, 0xe6e48c9a8e948365, 0x09068a4e255a0dac)
    else if t < 40 then Of8(t - 32, 0x0fcdf99710f21584, 0xf0aec2fe1437f085, 0x73e025d91b9efea3, 0x3cd388e119e8162e,
                            0xe1034573654a106f, 0xefabbd8bf47c041a, 0x0fbae670fa780fd3, 0xf098082f502b44cd)
    else if t < 48 then Of8(t - 40, 0x8fbfd0162bbf4675, 0x66adcfa249ac7bbd, 0xb49596c20feba7de, 0x0c710a47ba6a567b,
                            0x169008b3a4bb170b, 0xf0996439e7b50cb1, 0x639cb938e14dc190, 0xcc5100997f5710f2)
    else if t < 56 then Of8(t - 48, 0x858d832ae0e8911c, 0xe95c2a57572d64d9, 0xc6bc35740d8daa9a, 0x35264334c03ac8ad,
                            0x271580ed6c3e5650, 0xdfe091dab182e645, 0x07a0d8ef821c5e1a, 0x483f80a82eaee23e)
    else if t < 64 then Of8(t - 56, 0x504f94e40591cffa, 0xa6781efe1aa1ce02, 0x9ccfb31a86df0f86, 0xc6b4dd2a9931c509,
                            0xd2e89bbd91e00be0, 0x70505988124351ac, 0x6a3c9b0f71c8bf36, 0x4797cde4ed370692)
    else if t < 72 then Of8(t - 64, 0xa6af4e9c9f807e51, 0x09aee5bda1644de5, 0x84058865d60a05fa, 0xcd881ee59ca6bc53,
                            0xaa84b086688a5c45, 0x3b5fed0d6a1f96e1, 0x29fab5a7bff53366, 0x1c66f46d95690bcf)
    else if t < 80 then Of8(t - 72, 0x0ada78ba2d446140, 0xe3711cb6564d112d, 0xaff62c9665ff80fa, 0x947c3dfafee570ef,
                            0x8c7b5fd91a794ca0, 0x054d3536539948d0, 0x2ba18245b50de4cf, 0x995019a6ff3ba3de)
    else Of8(t - 80, 0xceb9fc3691ce8326, 0x25c96a7768fb2aa3, 0x9bb4d39778c07f9e, 0xd08446aa79693ed7,
             0x0000000000000000, 0x0000000000000000, 0x0000000000000000, 0x0000000000000000)
  }

  function State512(t: nat): Vars64
    requires t <= 80
  {
    Vars64(A512(t + 3), A512(t + 2), A512(t + 1), A512(t), E512(t + 3), E512(t + 2), E512(t + 1), E512(t))
  }

  predicate RoundHolds512(t: nat)
    requires t < 80
  {
    Round512(State512(t), K512(t), Word512(t)) == State512(t + 1)
  }

  predicate WordHolds512(t: nat)
    requires 16 <= t < 80
  {
    Next512(Word512(t - 2), Word512(t - 7), Word512(t - 15), Word512(t - 16)) == Word512(t)
  }

  lemma Rounds512From0(t: nat)
    requires 0 <= t < 8
    ensures RoundHolds512(t)
  {
    match t
    case 0 =>
    case 1 =>
    case 2 =>
    case 3 =>
    case 4 =>
    case 5 =>
    case 6 =>
    case _ =>
  }

  lemma Rounds512From8(t: nat)
    requires 8 <= t < 16
    ensures RoundHolds512(t)
  {
    match t
    case 8 =>
    case 9 =>
    case 10 =>
    case 11 =>
    case 12 =>
    case 13 =>
    case 14 =>
    case _ =>
  }

  lemma Rounds512From16(t: nat)
    requires 16 <= t < 24
    ensures RoundHolds512(t)
  {
    match t
    case 16 =>
    case 17 =>
    case 18 =>
    case 19 =>
    case 20 =>
    case 21 =>
    case 22 =>
    case _ =>
  }

  lemma Rounds512From24(t: nat)
    requires 24 <= t < 32
    ensures RoundHolds512(t)
  {
    match t
    case 24 =>
    case 25 =>
    case 26 =>
    case 27 =>
    case 28 =>
    case 29 =>
    case 30 =>
    case _ =>
  }

  lemma Rounds512From32(t: nat)
    requires 32 <= t < 40
    ensures RoundHolds512(t)
  {
    match t
    case 32 =>
    case 33 =>
    case 34 =>
    case 35 =>
    case 36 =>
    case 37 =>
    case 38 =>
    case _ =>
  }

  lemma Rounds512From40(t: nat)
    requires 40 <= t < 48
    ensures RoundHolds512(t)
  {
    match t
    case 40 =>
    case 41 =>
    case 42 =>
    case 43 =>
    case 44 =>
    case 45 =>
    case 46 =>
    case _ =>
  }

  lemma Rounds512From48(t: nat)
    requires 48 <= t < 56
    ensures RoundHolds512(t)
  {
    match t
    case 48 =>
    case 49 =>
    case 50 =>
    case 51 =>
    case 52 =>
    case 53 =>
    case 54 =>
    case _ =>
  }

  lemma Rounds512From56(t: nat)
    requires 56 <= t < 64
    ensures RoundHolds512(t)
  {
    match t
    case 56 =>
    case 57 =>
    case 58 =>
    case 59 =>
    case 60 =>
    case 61 =>
    case 62 =>
    case _ =>
  }

  lemma Rounds512From64(t: nat)
    requires 64 <= t < 72
    ensures RoundHolds512(t)
  {
    match t
    case 64 =>
    case 65 =>
    case 66 =>
    case 67 =>
    case 68 =>
    case 69 =>
    case 70 =>
    case _ =>
  }

  lemma Rounds512From72(t: nat)
    requires 72 <= t < 80
    ensures RoundHolds512(t)
  {
    match t
    case 72 =>
    case 73 =>
    case 74 =>
    case 75 =>
    case 76 =>
    case 77 =>
    case 78 =>
    case _ =>
  }

  lemma Words512From16()
    ensures WordHolds512(16) && WordHolds512(17) && WordHolds512(18) && WordHolds512(19)
    ensures WordHolds512(20) && WordHolds512(21) && WordHolds512(22) && WordHolds512(23)
  {
  }

  lemma Words512From24()
    ensures WordHolds512(24) && WordHolds512(25) && WordHolds512(26) && WordHolds512(27)
    ensures WordHolds512(28) && WordHolds512(29) && WordHolds512(30) && WordHolds512(31)
  {
  }

  lemma Words512From32()
    ensures WordHolds512(32) && WordHolds512(33) && WordHolds512(34) && WordHolds512(35)
    ensures WordHolds512(36) && WordHolds512(37) && WordHolds512(38) && WordHolds512(39)
  {
  }

  lemma Words512From40()
    ensures WordHolds512(40) && WordHolds512(41) && WordHolds512(42) && WordHolds512(43)
    ensures WordHolds512(44) && WordHolds512(45) && WordHolds512(46) && WordHolds512(47)
  {
  }

  lemma Words512From48()
    ensures WordHolds512(48) && WordHolds512(49) && WordHolds512(50) && WordHolds512(51)
    ensures WordHolds512(52) && WordHolds512(53) && WordHolds512(54) && WordHolds512(55)
  {
  }

  lemma Words512From56()
    ensures WordHolds512(56) && WordHolds512(57) && WordHolds512(58) && WordHolds512(59)
    ensures WordHolds512(60) && WordHolds512(61) && WordHolds512(62) && WordHolds512(63)
  {
  }

  lemma Words512From64()
    ensures WordHolds512(64) && WordHolds512(65) && WordHolds512(66) && WordHolds512(67)
    ensures WordHolds512(68) && WordHolds512(69) && WordHolds512(70) && WordHolds512(71)
  {
  }

  lemma Words512From72()
    ensures WordHolds512(72) && WordHolds512(73) && WordHolds512(74) && WordHolds512(75)
    ensures WordHolds512(76) && WordHolds512(77) && WordHolds512(78) && WordHolds512(79)
  {
  }

  /** The message, a one bit, zeros, and its length of 24 bits. */
  function Block512(): (block: Bytes)
    ensures |block| == 128
  {
    [0x61, 0x62, 0x63, 0x80] + Zeros(123) + [0x18]
  }

  lemma Loaded512(t: nat)
    requires t < 16
    ensures Load64(Block512(), 8 * t) == Word512(t)
  {
    BlockBytes512();
    hide Block512;
    if t == 0 {
    } else if t < 15 {
      ZeroWord512(t);
    }
  }

  lemma BlockBytes512()
    ensures var b := Block512();
            && b[0] == 0x61 && b[1] == 0x62 && b[2] == 0x63 && b[3] == 0x80 && b[127] == 0x18
            && forall i :: 4 <= i < 127 ==> b[i] == 0
  {
  }

  lemma ZeroWord512(t: nat)
    requires 0 < t < 15
    ensures Word512(t) == 0
  {
  }

  lemma {:induction false} ScheduleIs512(t: nat)
    requires t < 80
    ensures Schedule512(Block512(), t) == Word512(t)
  {
    hide *;
    ScheduleStep512(Block512(), t);
    if t < 16 {
      Loaded512(t);
    } else {
      ScheduleIs512(t - 2);
      ScheduleIs512(t - 7);
      ScheduleIs512(t - 15);
      ScheduleIs512(t - 16);
      NextWord512(t);
    }
  }

  lemma WordsHold512(t: nat)
    requires 16 <= t < 80
    ensures WordHolds512(t)
  {
    hide *;
    if t < 40 {
      EarlyWords512(t);
    } else {
      LateWords512(t);
    }
  }

  lemma EarlyWords512(t: nat)
    requires 16 <= t < 40
    ensures WordHolds512(t)
  {
    hide *;
    if t < 24 {
      Words512From16();
    } else if t < 32 {
      Words512From24();
    } else {
      Words512From32();
    }
  }

  lemma LateWords512(t: nat)
    requires 40 <= t < 80
    ensures WordHolds512(t)
  {
    hide *;
    if t < 48 {
      Words512From40();
    } else if t < 56 {
      Words512From48();
    } else if t < 64 {
      Words512From56();
    } else if t < 72 {
      Words512From64();
    } else {
      Words512From72();
    }
  }

  lemma NextWord512(t: nat)
    requires 16 <= t < 80
    ensures Next512(Word512(t - 2), Word512(t - 7), Word512(t - 15), Word512(t - 16)) == Word512(t)
  {
    WordsHold512(t);
    hide Next512;
    hide Word512;
  }

  lemma {:induction false} RoundsAre512(t: nat)
    requires t <= 80
    ensures Rounds512(State512(0), Block512(), t) == State512(t)
  {
    hide *;
    RoundsStep512(State512(0), Block512(), t);
    if t > 0 {
      RoundsAre512(t - 1);
      ScheduleIs512(t - 1);
      NextState512(t - 1);
    }
  }

  lemma NextState512(t: nat)
    requires t < 80
    ensures Round512(State512(t), K512(t), Word512(t)) == State512(t + 1)
  {
    assert RoundHolds512(t) by {
      hide *;
      if t < 8 {
        Rounds512From0(t);
      } else if t < 16 {
        Rounds512From8(t);
      } else if t < 24 {
        Rounds512From16(t);
      } else if t < 32 {
        Rounds512From24(t);
      } else if t < 40 {
        Rounds512From32(t);
      } else if t < 48 {
        Rounds512From40(t);
      } else if t < 56 {
        Rounds512From48(t);
      } else if t < 64 {
        Rounds512From56(t);
      } else if t < 72 {
        Rounds512From64(t);
      } else {
        Rounds512From72(t);
      }
    }
    hide Round512;
    hide State512;
    hide K512;
    hide Word512;
  }

  function DigestWords512(): Words {
    [0xddaf35a193617aba, 0xcc417349ae204131, 0x12e6fa4e89a97ea2, 0x0a9eeee64b55d39a,
     0x2192992a274fc1a8, 0x36ba3c23a3feebbd, 0x454d4423643ce80e, 0x2a9ac94fa54ca49f]
  }

  lemma WordBack64(w: bv64)
    ensures Word64(w as nat) == w
  {
    WordRange64(w);
    NumberTheory.ModSmall(w as nat, 0x10000000000000000);
  }

  lemma WordRange64(w: bv64)
    ensures 0 <= w as int < 0x10000000000000000
  {
  }

  lemma StartIs512()
    ensures |SHA512_INITIAL| == 8 && Start512(SHA512_INITIAL) == State512(0)
  {
    WordBack64(0x6a09e667f3bcc908);
    WordBack64(0xbb67ae8584caa73b);
    WordBack64(0x3c6ef372fe94f82b);
    WordBack64(0xa54ff53a5f1d36f1);
    WordBack64(0x510e527fade682d1);
    WordBack64(0x9b05688c2b3e6c1f);
    WordBack64(0x1f83d9abfb41bd6b);
    WordBack64(0x5be0cd19137e2179);
    hide Word64;
  }

  lemma SumIs512()
    ensures Sum512(State512(0), State512(80)) == DigestWords512()
  {
  }

  lemma CompressedIs512()
    ensures Compress512(SHA512_INITIAL, Block512()) == DigestWords512()
  {
    hide *;
    StartIs512();
    CompressIs512(SHA512_INITIAL, Block512());
    RoundsAre512(80);
    SumIs512();
  }

  lemma PaddedIs512()
    ensures [0x61, 0x62, 0x63] + Padding(SHA512, 3) == Block512()
  {
    LengthIs(16);
    PaddingParts512();
    hide *;
    Regroup(Zeros(108), Zeros(15));
    ZerosJoin(108, 15);
    BlockIs512();
  }

  lemma BlockIs512()
    ensures Block512() == [0x61, 0x62, 0x63, 0x80] + Zeros(123) + [0x18]
  {
  }

  lemma PaddingParts512()
    ensures Padding(SHA512, 3) == [0x80] + Zeros(108) + BeBytes(24, 16)
  {
    hide BeBytes;
    hide Zeros;
    assert ZeroCount(SHA512, 3) == 108;
  }

  lemma OneBlock512()
    ensures Hash(SHA512, [0x61, 0x62, 0x63]) == Digest(DigestWords512(), 8)
  {
    PaddedIs512();
    CompressedIs512();
    hide Padding;
    hide Digest;
    hide Compress512;
    hide DigestWords512;
    hide Block512;
    assert Block512()[..128] == Block512() && Block512()[128..] == [];
  }

  /** The digest of "abc", as eight words. */
  lemma AbcDigest512()
    ensures Hash(SHA512, [0x61, 0x62, 0x63])
         == BeBytes(0xddaf35a193617aba, 8) + BeBytes(0xcc417349ae204131, 8)
            + BeBytes(0x12e6fa4e89a97ea2, 8) + BeBytes(0x0a9eeee64b55d39a, 8)
            + BeBytes(0x2192992a274fc1a8, 8) + BeBytes(0x36ba3c23a3feebbd, 8)
            + BeBytes(0x454d4423643ce80e, 8) + BeBytes(0x2a9ac94fa54ca49f, 8)
  {
    OneBlock512();
    DigestOfEight(DigestWords512(), 8);
    hide Hash;
    hide Digest;
    hide BeBytes;
  }

  // ----- padding and output -----

  lemma {:induction false} ZeroBytes(n: nat)
    ensures BeBytes(0, n) == Zeros(n)
  {
    if n > 0 {
      ZeroBytes(n - 1);
      ByteZero();
      hide ByteOf;
    }
  }

  lemma ByteZero()
    ensures ByteOf(0) == 0 && ByteOf(24) == 24
  {
  }

  lemma Regroup(a: Bytes, b: Bytes)
    ensures [0x61, 0x62, 0x63] + ([0x80] + a + (b + [0x18])) == [0x61, 0x62, 0x63, 0x80] + (a + b) + [0x18]
  {
  }

  lemma ZerosJoin(m: nat, n: nat)
    ensures Zeros(m) + Zeros(n) == Zeros(m + n)
  {
  }

  lemma LengthIs(n: nat)
    requires n > 0
    ensures BeBytes(24, n) == Zeros(n - 1) + [0x18]
  {
    ZeroBytes(n - 1);
    ByteZero();
    hide ByteOf;
    assert 24 / 256 == 0 && 24 % 256 == 24;
  }

  lemma DigestOfEight(words: Words, size: nat)
    requires |words| == 8
    ensures Digest(words, size)
         == BeBytes(words[0], size) + BeBytes(words[1], size) + BeBytes(words[2], size) + BeBytes(words[3], size)
            + BeBytes(words[4], size) + BeBytes(words[5], size) + BeBytes(words[6], size) + BeBytes(words[7], size)
  {
    hide *;
    NoDigest(size);
    assert words[..0] == [] && words[..8] == words;
    DigestNext(words, 0, size);
    DigestNext(words, 1, size);
    DigestNext(words, 2, size);
    DigestNext(words, 3, size);
    DigestNext(words, 4, size);
    DigestNext(words, 5, size);
    DigestNext(words, 6, size);
    DigestNext(words, 7, size);
  }

  lemma NoDigest(size: nat)
    ensures Digest([], size) == []
  {
  }

  lemma DigestNext(words: Words, i: nat, size: nat)
    requires i < |words|
    ensures Digest(words[..i + 1], size) == Digest(words[..i], size) + BeBytes(words[i], size)
  {
    assert words[..i + 1][..i] == words[..i];
    hide BeBytes;
  }
}
