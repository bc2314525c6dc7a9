/** 256-bit numbers in eight 32-bit words, least significant first, and the constants written that way. */
module Words256 {
  import opened Digits

  const LIMB_COUNT: nat := 8

  type U256 = s: seq<Word> | |s| == 8 witness [0, 0, 0, 0, 0, 0, 0, 0]

  /** The number eight words spell. They are copied one by one, which keeps the 256-bit value of a constant
      out of the proofs that do not ask for it. */
  function Spelled(words: U256): nat {
    Val(seq(LIMB_COUNT, i requires 0 <= i < LIMB_COUNT => words[i]))
  }

  lemma SpelledIs(words: U256)
    ensures Spelled(words) == Val(words)
  {
    hide Val;
    assert seq(LIMB_COUNT, i requires 0 <= i < LIMB_COUNT => words[i]) == words;
  }

  lemma LimbsValue(s: U256)
    ensures Val(s) == s[0] + BASE * (s[1] + BASE * (s[2] + BASE * (s[3] + BASE * (s[4] + BASE * (s[5] + BASE * (s[6] + BASE * s[7]))))))
  {
    hide Le;
    assert s[0..] == s;
    LeHead(s, 0, BASE);
    LeHead(s, 1, BASE);
    LeHead(s, 2, BASE);
    LeHead(s, 3, BASE);
    LeHead(s, 4, BASE);
    LeHead(s, 5, BASE);
    LeHead(s, 6, BASE);
    LeHead(s, 7, BASE);
    LeZeros(s[8..], BASE);
  }

  const ZERO: U256 := [0, 0, 0, 0, 0, 0, 0, 0]
}
