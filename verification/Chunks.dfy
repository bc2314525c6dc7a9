/** Byte strings: zeros, big-endian numbers, and strings that arrive in pieces. */
module Chunks {
  import opened NumberTheory

  function Zeros(n: nat): (s: seq<bv8>)
    ensures |s| == n
  {
    seq(n, _ => 0)
  }

  function Flatten(chunks: seq<seq<bv8>>): seq<bv8> {
    if chunks == [] then [] else Flatten(chunks[..|chunks| - 1]) + chunks[|chunks| - 1]
  }

  // ----- big-endian numbers -----

  function ByteOf(n: nat): bv8
    requires n < 256
  {
    n as bv8
  }

  lemma ByteBack(n: nat)
    requires n < 256
    ensures ByteOf(n) as nat == n
  {
    var b := ByteFor(n);
    ByteAgain(b);
  }

  /** Every number below 256 is the value of a byte, counting up from zero. */
  lemma {:induction false} ByteFor(n: nat) returns (b: bv8)
    requires n < 256
    ensures b as nat == n
    decreases n
  {
    b := 0;
    if n > 0 {
      var c := ByteFor(n - 1);
      ByteSuccessor(c);
      b := c + 1;
    }
  }

  lemma ByteSuccessor(b: bv8)
    requires b as nat < 255
    ensures (b + 1) as nat == b as nat + 1
  {
  }

  lemma ByteAgain(b: bv8)
    ensures (b as nat) as bv8 == b
  {
  }

  lemma ByteRange(b: bv8)
    ensures 0 <= b as int < 256
  {
  }

  lemma ByteEqual(a: bv8, b: bv8)
    ensures a as int == b as int ==> a == b
  {
  }

  /** The number that the bytes spell, most significant first. */
  function BeNumber(s: seq<bv8>): nat {
    if s == [] then 0 else BeNumber(s[..|s| - 1]) * 256 + s[|s| - 1] as nat
  }

  /** The big-endian form of n in `len` bytes; what does not fit is lost. */
  function BeBytes(n: nat, len: nat): (s: seq<bv8>)
    ensures |s| == len
    decreases len
  {
    if len == 0 then [] else BeBytes(n / 256, len - 1) + [ByteOf(n % 256)]
  }

  lemma {:induction false} BeNumberOfBytes(n: nat, len: nat)
    ensures Pow(256, len) > 0 && BeNumber(BeBytes(n, len)) == n % Pow(256, len)
    decreases len
  {
    if len == 0 {
      ModMultiple(n, 1);
    } else {
      BeNumberOfBytes(n / 256, len - 1);
      ByteBack(n % 256);
      var head := BeBytes(n / 256, len - 1);
      assert BeBytes(n, len)[..len - 1] == head;
      DigitBelow(n, Pow(256, len - 1));
    }
  }

  /** Truncating n keeps its last digit and truncates the rest. */
  lemma DigitBelow(n: nat, p: int)
    requires p > 0
    ensures 256 * p > 0 && n % (256 * p) == (n / 256) % p * 256 + n % 256
  {
    var q, r := n / 256 / p, (n / 256) % p;
    assert n == (q * p + r) * 256 + n % 256;
    assert (q * p + r) * 256 == q * (256 * p) + r * 256;
    DivModUnique(n, 256 * p, q, r * 256 + n % 256);
  }

  lemma {:induction false} BeNumberInjective(s: seq<bv8>, t: seq<bv8>)
    requires |s| == |t| && BeNumber(s) == BeNumber(t)
    ensures s == t
    decreases |s|
  {
    if s != [] {
      var n := |s| - 1;
      ByteRange(s[n]);
      ByteRange(t[n]);
      LastDigit(BeNumber(s[..n]), s[n] as nat, BeNumber(t[..n]), t[n] as nat);
      ByteEqual(s[n], t[n]);
      BeNumberInjective(s[..n], t[..n]);
      assert s == s[..n] + [s[n]] && t == t[..n] + [t[n]];
    }
  }

  lemma LastDigit(a: nat, b: nat, c: nat, d: nat)
    requires b < 256 && d < 256 && a * 256 + b == c * 256 + d
    ensures a == c && b == d
  {
  }

  lemma AppendDigit(a: nat, p: int, b: nat, d: nat)
    ensures (a * p + b) * 256 + d == a * (256 * p) + (b * 256 + d)
  {
  }

  /** The number of a concatenation. */
  lemma {:induction false} BeNumberConcat(s: seq<bv8>, t: seq<bv8>)
    ensures BeNumber(s + t) == BeNumber(s) * Pow(256, |t|) + BeNumber(t)
    decreases |t|
  {
    if t == [] {
      assert s + t == s;
    } else {
      var n := |t| - 1;
      assert (s + t)[..|s + t| - 1] == s + t[..n];
      BeNumberConcat(s, t[..n]);
      PowStep(256, n);
      hide Pow;
      AppendDigit(BeNumber(s), Pow(256, n), BeNumber(t[..n]), t[n] as nat);
    }
  }
}
