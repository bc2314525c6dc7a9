/** The compression functions of `src/sha2.cpp` (sections 3.2, 4.1, 4.2, 6.2.2 and 6.4.2 of FIPS 180-4). */
module Sha2Rounds {
  import opened Sha2Spec

  /** One of eight values. */
  function Of8<T>(i: nat, v0: T, v1: T, v2: T, v3: T, v4: T, v5: T, v6: T, v7: T): T
    requires i < 8
  {
    if i < 4 then (if i < 2 then (if i == 0 then v0 else v1) else (if i == 2 then v2 else v3))
    else (if i < 6 then (if i == 4 then v4 else v5) else (if i == 6 then v6 else v7))
  }

  // ----- SHA-256 -----

  /** The constant of round i. */
  function K256(i: nat): bv32
    requires i < 64
  {
    if i < 8 then Of8(i, 0x428a2f98, 0x71374491, 0xb5c0fbcf, 0xe9b5dba5, 0x3956c25b, 0x59f111f1, 0x923f82a4, 0xab1c5ed5)
    else if i < 16 then Of8(i - 8, 0xd807aa98, 0x12835b01, 0x243185be, 0x550c7dc3, 0x72be5d74, 0x80deb1fe, 0x9bdc06a7, 0xc19bf174)
    else if i < 24 then Of8(i - 16, 0xe49b69c1, 0xefbe4786, 0x0fc19dc6, 0x240ca1cc, 0x2de92c6f, 0x4a7484aa, 0x5cb0a9dc, 0x76f988da)
    else if i < 32 then Of8(i - 24, 0x983e5152, 0xa831c66d, 0xb00327c8, 0xbf597fc7, 0xc6e00bf3, 0xd5a79147, 0x06ca6351, 0x14292967)
    else if i < 40 then Of8(i - 32, 0x27b70a85, 0x2e1b2138, 0x4d2c6dfc, 0x53380d13, 0x650a7354, 0x766a0abb, 0x81c2c92e, 0x92722c85)
    else if i < 48 then Of8(i - 40, 0xa2bfe8a1, 0xa81a664b, 0xc24b8b70, 0xc76c51a3, 0xd192e819, 0xd6990624, 0xf40e3585, 0x106aa070)
    else if i < 56 then Of8(i - 48, 0x19a4c116, 0x1e376c08, 0x2748774c, 0x34b0bcb5, 0x391c0cb3, 0x4ed8aa4a, 0x5b9cca4f, 0x682e6ff3)
    else Of8(i - 56, 0x748f82ee, 0x78a5636f, 0x84c87814, 0x8cc70208, 0x90befffa, 0xa4506ceb, 0xbef9a3f7, 0xc67178f2)
  }

  /** The rotation to the right. */
  function Rotr32(value: bv32, bits: bv32): bv32
    requires 0 < bits < 32
  {
    (value >> bits) | (value << (32 - bits))
  }

  function Load32(block: Bytes, i: nat): bv32
    requires i + 4 <= |block|
  {
    ((block[i + 0] as bv32) << 24) | ((block[i + 1] as bv32) << 16) | ((block[i + 2] as bv32) << 8) | (block[i + 3] as bv32)
  }

  /** A chaining word as a bit-vector. */
  function Word32(n: nat): bv32 {
    (n % 0x1_0000_0000) as bv32
  }

  function BigSigma0Of256(x: bv32): bv32 { Rotr32(x, 2) ^ Rotr32(x, 13) ^ Rotr32(x, 22) }

  function BigSigma1Of256(x: bv32): bv32 { Rotr32(x, 6) ^ Rotr32(x, 11) ^ Rotr32(x, 25) }

  function SmallSigma0Of256(x: bv32): bv32 { Rotr32(x, 7) ^ Rotr32(x, 18) ^ (x >> 3) }

  function SmallSigma1Of256(x: bv32): bv32 { Rotr32(x, 17) ^ Rotr32(x, 19) ^ (x >> 10) }

  function Ch32(x: bv32, y: bv32, z: bv32): bv32 { (x & y) ^ (!x & z) }

  function Maj32(x: bv32, y: bv32, z: bv32): bv32 { (x & y) ^ (x & z) ^ (y & z) }

  /** The next schedule word from the words 2, 7, 15 and 16 places before it. */
  function Next256(w2: bv32, w7: bv32, w15: bv32, w16: bv32): bv32 {
    w16 + SmallSigma0Of256(w15) + w7 + SmallSigma1Of256(w2)
  }

  /** Word t of the message schedule. */
  function Schedule256(block: Bytes, t: nat): bv32
    requires |block| == 64 && t < 64
  {
    if t < 16 then Load32(block, 4 * t)
    else Next256(Schedule256(block, t - 2), Schedule256(block, t - 7), Schedule256(block, t - 15), Schedule256(block, t - 16))
  }

  datatype Vars32 = Vars32(a: bv32, b: bv32, c: bv32, d: bv32, e: bv32, f: bv32, g: bv32, h: bv32)

  function Round256(v: Vars32, k: bv32, w: bv32): Vars32 {
    var t1 := v.h + BigSigma1Of256(v.e) + Ch32(v.e, v.f, v.g) + k + w;
    var t2 := BigSigma0Of256(v.a) + Maj32(v.a, v.b, v.c);
    Vars32(t1 + t2, v.a, v.b, v.c, v.d + t1, v.e, v.f, v.g)
  }

  function Rounds256(v: Vars32, block: Bytes, n: nat): Vars32
    requires |block| == 64 && n <= 64
  {
    if n == 0 then v else Round256(Rounds256(v, block, n - 1), K256(n - 1), Schedule256(block, n - 1))
  }

  function Start256(words: Words): Vars32
    requires |words| == 8
  {
    Vars32(Word32(words[0]), Word32(words[1]), Word32(words[2]), Word32(words[3]),
           Word32(words[4]), Word32(words[5]), Word32(words[6]), Word32(words[7]))
  }

  function Sum256(v: Vars32, r: Vars32): (words: Words)
    ensures |words| == 8
  {
    [(v.a + r.a) as nat, (v.b + r.b) as nat, (v.c + r.c) as nat, (v.d + r.d) as nat,
     (v.e + r.e) as nat, (v.f + r.f) as nat, (v.g + r.g) as nat, (v.h + r.h) as nat]
  }

  /** What one block does to the chaining words. */
  function Compress256(words: Words, block: Bytes): (r: Words)
    ensures |r| == 8
  {
    hide *;
    if |words| != 8 || |block| != 64 then seq(8, _ => 0)
    else Sum256(Start256(words), Rounds256(Start256(words), block, 64))
  }

  lemma ScheduleStep256(block: Bytes, t: nat)
    requires |block| == 64 && t < 64
    ensures t < 16 ==> Schedule256(block, t) == Load32(block, 4 * t)
    ensures t >= 16 ==>
              Schedule256(block, t) ==
                Next256(Schedule256(block, t - 2), Schedule256(block, t - 7), Schedule256(block, t - 15), Schedule256(block, t - 16))
  {
    hide Next256;
    hide Load32;
  }

  method ExpandSchedule256(block: Bytes) returns (w: array<bv32>)
    requires |block| == 64
    ensures fresh(w) && w.Length == 64 && forall t :: 0 <= t < 64 ==> w[t] == Schedule256(block, t)
  {
    hide *;
    w := new bv32[64](_ => 0);
    for i := 0 to 16
      invariant forall t :: 0 <= t < i ==> w[t] == Schedule256(block, t)
    {
      ScheduleStep256(block, i);
      w[i] := Load32(block, 4 * i);
    }
    for i := 16 to 64
      invariant forall t :: 0 <= t < i ==> w[t] == Schedule256(block, t)
    {
      ScheduleStep256(block, i);
      w[i] := Next256(w[i - 2], w[i - 7], w[i - 15], w[i - 16]);
    }
  }

  /** `transform`: the schedule, then the rounds, then the sum with the old words. */
  method Transform256(words: Words, block: Bytes) returns (r: Words)
    requires |words| == 8 && |block| == 64
    ensures r == Compress256(words, block)
  {
    hide *;
    CompressIs256(words, block);
    var w := ExpandSchedule256(block);
    var start := Start256(words);
    var v := start;
    RoundsStep256(start, block, 0);
    for i := 0 to 64
      invariant v == Rounds256(start, block, i)
      invariant forall t :: 0 <= t < 64 ==> w[t] == Schedule256(block, t)
    {
      RoundsStep256(start, block, i + 1);
      v := Round256(v, K256(i), w[i]);
    }
    r := Sum256(start, v);
  }

  lemma CompressIs256(words: Words, block: Bytes)
    requires |words| == 8 && |block| == 64
    ensures Compress256(words, block) == Sum256(Start256(words), Rounds256(Start256(words), block, 64))
  {
    hide Sum256;
    hide Rounds256;
    hide Start256;
  }

  lemma RoundsStep256(v: Vars32, block: Bytes, n: nat)
    requires |block| == 64 && n <= 64
    ensures n == 0 ==> Rounds256(v, block, n) == v
    ensures n > 0 ==> Rounds256(v, block, n) == Round256(Rounds256(v, block, n - 1), K256(n - 1), Schedule256(block, n - 1))
  {
    hide K256;
    hide Round256;
    hide Schedule256;
  }

  // ----- SHA-512 -----

  /** The constant of round i. */
  function K512(i: nat): bv64
    requires i < 80
  {
    if i < 8 then Of8(i, 0x428a2f98d728ae22, 0x7137449123ef65cd, 0xb5c0fbcfec4d3b2f, 0xe9b5dba58189dbbc,
                      0x3956c25bf348b538, 0x59f111f1b605d019, 0x923f82a4af194f9b, 0xab1c5ed5da6d8118)
    else if i < 16 then Of8(i - 8, 0xd807aa98a3030242, 0x12835b0145706fbe, 0x243185be4ee4b28c, 0x550c7dc3d5ffb4e2,
                            0x72be5d74f27b896f, 0x80deb1fe3b1696b1, 0x9bdc06a725c71235, 0xc19bf174cf692694)
    else if i < 24 then Of8(i - 16, 0xe49b69c19ef14ad2, 0xefbe4786384f25e3, 0x0fc19dc68b8cd5b5, 0x240ca1cc77ac9c65,
                            0x2de92c6f592b0275, 0x4a7484aa6ea6e483, 0x5cb0a9dcbd41fbd4, 0x76f988da831153b5)
    else if i < 32 then Of8(i - 24, 0x983e5152ee66dfab, 0xa831c66d2db43210, 0xb00327c898fb213f, 0xbf597fc7beef0ee4,
                            0xc6e00bf33da88fc2, 0xd5a79147930aa725, 0x06ca6351e003826f, 0x142929670a0e6e70)
    else if i < 40 then Of8(i - 32, 0x27b70a8546d22ffc, 0x2e1b21385c26c926, 0x4d2c6dfc5ac42aed, 0x53380d139d95b3df,
                            0x650a73548baf63de, 0x766a0abb3c77b2a8, 0x81c2c92e47edaee6, 0x92722c851482353b)
    else if i < 48 then Of8(i - 40, 0xa2bfe8a14cf10364, 0xa81a664bbc423001, 0xc24b8b70d0f89791, 0xc76c51a30654be30,
                            0xd192e819d6ef5218, 0xd69906245565a910, 0xf40e35855771202a, 0x106aa07032bbd1b8)
    else if i < 56 then Of8(i - 48, 0x19a4c116b8d2d0c8, 0x1e376c085141ab53, 0x2748774cdf8eeb99, 0x34b0bcb5e19b48a8,
                            0x391c0cb3c5c95a63, 0x4ed8aa4ae3418acb, 0x5b9cca4f7763e373, 0x682e6ff3d6b2b8a3)
    else if i < 64 then Of8(i - 56, 0x748f82ee5defb2fc, 0x78a5636f43172f60, 0x84c87814a1f0ab72, 0x8cc702081a6439ec,
                            0x90befffa23631e28, 0xa4506cebde82bde9, 0xbef9a3f7b2c67915, 0xc67178f2e372532b)
    else if i < 72 then Of8(i - 64, 0xca273eceea26619c, 0xd186b8c721c0c207, 0xeada7dd6cde0eb1e, 0xf57d4f7fee6ed178,
                            0x06f067aa72176fba, 0x0a637dc5a2c898a6, 0x113f9804bef90dae, 0x1b710b35131c471b)
    else Of8(i - 72, 0x28db77f523047d84, 0x32caab7b40c72493, 0x3c9ebe0a15c9bebc, 0x431d67c49c100d4c,
             0x4cc5d4becb3e42b6, 0x597f299cfc657e2a, 0x5fcb6fab3ad6faec, 0x6c44198c4a475817)
  }

  /** The rotation to the right. */
  function Rotr64(value: bv64, bits: bv64): bv64
    requires 0 < bits < 64
  {
    (value >> bits) | (value << (64 - bits))
  }

  function Load64(block: Bytes, i: nat): bv64
    requires i + 8 <= |block|
  {
    ((block[i + 0] as bv64) << 56) | ((block[i + 1] as bv64) << 48) | ((block[i + 2] as bv64) << 40) | ((block[i + 3] as bv64) << 32)
      | ((block[i + 4] as bv64) << 24) | ((block[i + 5] as bv64) << 16) | ((block[i + 6] as bv64) << 8) | (block[i + 7] as bv64)
  }

  /** A chaining word as a bit-vector. */
  function Word64(n: nat): bv64 {
    (n % 0x1_0000_0000_0000_0000) as bv64
  }

  function BigSigma0Of512(x: bv64): bv64 { Rotr64(x, 28) ^ Rotr64(x, 34) ^ Rotr64(x, 39) }

  function BigSigma1Of512(x: bv64): bv64 { Rotr64(x, 14) ^ Rotr64(x, 18) ^ Rotr64(x, 41) }

  function SmallSigma0Of512(x: bv64): bv64 { Rotr64(x, 1) ^ Rotr64(x, 8) ^ (x >> 7) }

  function SmallSigma1Of512(x: bv64): bv64 { Rotr64(x, 19) ^ Rotr64(x, 61) ^ (x >> 6) }

  function Ch64(x: bv64, y: bv64, z: bv64): bv64 { (x & y) ^ (!x & z) }

  function Maj64(x: bv64, y: bv64, z: bv64): bv64 { (x & y) ^ (x & z) ^ (y & z) }

  /** The next schedule word from the words 2, 7, 15 and 16 places before it. */
  function Next512(w2: bv64, w7: bv64, w15: bv64, w16: bv64): bv64 {
    w16 + SmallSigma0Of512(w15) + w7 + SmallSigma1Of512(w2)
  }

  /** Word t of the message schedule. */
  function Schedule512(block: Bytes, t: nat): bv64
    requires |block| == 128 && t < 80
  {
    if t < 16 then Load64(block, 8 * t)
    else Next512(Schedule512(block, t - 2), Schedule512(block, t - 7), Schedule512(block, t - 15), Schedule512(block, t - 16))
  }

  datatype Vars64 = Vars64(a: bv64, b: bv64, c: bv64, d: bv64, e: bv64, f: bv64, g: bv64, h: bv64)

  function Round512(v: Vars64, k: bv64, w: bv64): Vars64 {
    var t1 := v.h + BigSigma1Of512(v.e) + Ch64(v.e, v.f, v.g) + k + w;
    var t2 := BigSigma0Of512(v.a) + Maj64(v.a, v.b, v.c);
    Vars64(t1 + t2, v.a, v.b, v.c, v.d + t1, v.e, v.f, v.g)
  }

  function Rounds512(v: Vars64, block: Bytes, n: nat): Vars64
    requires |block| == 128 && n <= 80
  {
    if n == 0 then v else Round512(Rounds512(v, block, n - 1), K512(n - 1), Schedule512(block, n - 1))
  }

  function Start512(words: Words): Vars64
    requires |words| == 8
  {
    Vars64(Word64(words[0]), Word64(words[1]), Word64(words[2]), Word64(words[3]),
           Word64(words[4]), Word64(words[5]), Word64(words[6]), Word64(words[7]))
  }

  function Sum512(v: Vars64, r: Vars64): (words: Words)
    ensures |words| == 8
  {
    [(v.a + r.a) as nat, (v.b + r.b) as nat, (v.c + r.c) as nat, (v.d + r.d) as nat,
     (v.e + r.e) as nat, (v.f + r.f) as nat, (v.g + r.g) as nat, (v.h + r.h) as nat]
  }

  /** What one block does to the chaining words. */
  function Compress512(words: Words, block: Bytes): (r: Words)
    ensures |r| == 8
  {
    hide *;
    if |words| != 8 || |block| != 128 then seq(8, _ => 0)
    else Sum512(Start512(words), Rounds512(Start512(words), block, 80))
  }

  lemma ScheduleStep512(block: Bytes, t: nat)
    requires |block| == 128 && t < 80
    ensures t < 16 ==> Schedule512(block, t) == Load64(block, 8 * t)
    ensures t >= 16 ==>
              Schedule512(block, t) ==
                Next512(Schedule512(block, t - 2), Schedule512(block, t - 7), Schedule512(block, t - 15), Schedule512(block, t - 16))
  {
    hide Next512;
    hide Load64;
  }

  method ExpandSchedule512(block: Bytes) returns (w: array<bv64>)
    requires |block| == 128
    ensures fresh(w) && w.Length == 80 && forall t :: 0 <= t < 80 ==> w[t] == Schedule512(block, t)
  {
    hide *;
    w := new bv64[80](_ => 0);
    for i := 0 to 16
      invariant forall t :: 0 <= t < i ==> w[t] == Schedule512(block, t)
    {
      ScheduleStep512(block, i);
      w[i] := Load64(block, 8 * i);
    }
    for i := 16 to 80
      invariant forall t :: 0 <= t < i ==> w[t] == Schedule512(block, t)
    {
      ScheduleStep512(block, i);
      w[i] := Next512(w[i - 2], w[i - 7], w[i - 15], w[i - 16]);
    }
  }

  /** `transform`: the schedule, then the rounds, then the sum with the old words. */
  method Transform512(words: Words, block: Bytes) returns (r: Words)
    requires |words| == 8 && |block| == 128
    ensures r == Compress512(words, block)
  {
    hide *;
    CompressIs512(words, block);
    var w := ExpandSchedule512(block);
    var start := Start512(words);
    var v := start;
    RoundsStep512(start, block, 0);
    for i := 0 to 80
      invariant v == Rounds512(start, block, i)
      invariant forall t :: 0 <= t < 80 ==> w[t] == Schedule512(block, t)
    {
      RoundsStep512(start, block, i + 1);
      v := Round512(v, K512(i), w[i]);
    }
    r := Sum512(start, v);
  }

  lemma CompressIs512(words: Words, block: Bytes)
    requires |words| == 8 && |block| == 128
    ensures Compress512(words, block) == Sum512(Start512(words), Rounds512(Start512(words), block, 80))
  {
    hide Sum512;
    hide Rounds512;
    hide Start512;
  }

  lemma RoundsStep512(v: Vars64, block: Bytes, n: nat)
    requires |block| == 128 && n <= 80
    ensures n == 0 ==> Rounds512(v, block, n) == v
    ensures n > 0 ==> Rounds512(v, block, n) == Round512(Rounds512(v, block, n - 1), K512(n - 1), Schedule512(block, n - 1))
  {
    hide K512;
    hide Round512;
    hide Schedule512;
  }

  // ----- the hash functions -----

  const SHA256: Sha := Sha(Sha256, Compress256)
  const SHA512: Sha := Sha(Sha512, Compress512)

  lemma CompressionsKeepWords()
    ensures SHA256.KeepsWords() && SHA512.KeepsWords()
  {
    hide Compress256;
    hide Compress512;
  }
}
