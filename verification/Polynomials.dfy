/** Polynomials over GF(2), written as natural numbers whose bit i is the coefficient of x^i, and
    arithmetic modulo x^128 + x^7 + x^2 + x + 1 (section 6.3 of NIST SP 800-38D). */
module Polynomials {
  import opened NumberTheory

  // ----- addition -----

  function Xor(a: nat, b: nat): nat {
    if a == 0 then b
    else if b == 0 then a
    else 2 * Xor(a / 2, b / 2) + (a + b) % 2
  }

  /** Lowest coefficient and the rest. */
  lemma XorStep(a: nat, b: nat)
    ensures Xor(a, b) % 2 == (a + b) % 2 && Xor(a, b) / 2 == Xor(a / 2, b / 2)
  {
    if a > 0 && b > 0 {
      AppendBit(Xor(a / 2, b / 2), (a + b) % 2);
    } else {
      XorZero(a);
      XorZero(b);
      XorZero(a / 2);
      XorZero(b / 2);
    }
  }

  lemma AppendBit(rest: nat, bit: nat)
    requires bit < 2
    ensures (2 * rest + bit) % 2 == bit && (2 * rest + bit) / 2 == rest
  {
  }

  lemma XorZero(a: nat)
    ensures Xor(a, 0) == a && Xor(0, a) == a
  {
  }

  lemma HalfAndBit(a: nat, b: nat)
    requires a / 2 == b / 2 && a % 2 == b % 2
    ensures a == b
  {
  }

  lemma {:induction false} XorCommutes(a: nat, b: nat)
    ensures Xor(a, b) == Xor(b, a)
    decreases a
  {
    if a > 0 && b > 0 {
      XorCommutes(a / 2, b / 2);
    }
  }

  lemma {:induction false} XorSelf(a: nat)
    ensures Xor(a, a) == 0
    decreases a
  {
    if a > 0 {
      XorSelf(a / 2);
    }
  }

  lemma {:induction false} XorAssociates(a: nat, b: nat, c: nat)
    ensures Xor(Xor(a, b), c) == Xor(a, Xor(b, c))
    decreases a + b + c
  {
    hide Xor;
    XorZero(a);
    XorZero(b);
    XorZero(c);
    XorZero(Xor(a, b));
    XorZero(Xor(b, c));
    if a > 0 && b > 0 && c > 0 {
      XorAssociates(a / 2, b / 2, c / 2);
      XorStep(a, b);
      XorStep(b, c);
      XorStep(Xor(a, b), c);
      XorStep(a, Xor(b, c));
      SumParity(a, b, c, Xor(a, b), Xor(b, c));
      HalfAndBit(Xor(Xor(a, b), c), Xor(a, Xor(b, c)));
    }
  }

  lemma SumParity(a: nat, b: nat, c: nat, ab: nat, bc: nat)
    requires ab % 2 == (a + b) % 2 && bc % 2 == (b + c) % 2
    ensures (ab + c) % 2 == (a + bc) % 2
  {
  }

  lemma XorMiddle(a: nat, b: nat, c: nat, d: nat)
    ensures Xor(Xor(a, b), Xor(c, d)) == Xor(Xor(a, c), Xor(b, d))
  {
    hide Xor;
    XorAssociates(a, b, Xor(c, d));
    XorAssociates(b, c, d);
    XorCommutes(b, c);
    XorAssociates(c, b, d);
    XorAssociates(a, c, Xor(b, d));
  }

  /** The common middle cancels. */
  lemma XorChain(a: nat, b: nat, c: nat)
    ensures Xor(Xor(a, b), Xor(b, c)) == Xor(a, c)
  {
    hide Xor;
    XorAssociates(a, b, Xor(b, c));
    XorAssociates(b, b, c);
    XorSelf(b);
    XorZero(c);
  }

  lemma XorEqual(a: nat, b: nat)
    requires Xor(a, b) == 0
    ensures a == b
  {
    hide Xor;
    XorAssociates(a, b, b);
    XorSelf(b);
    XorZero(a);
    XorZero(b);
  }

  lemma XorDouble(a: nat, b: nat)
    ensures Xor(2 * a, 2 * b) == 2 * Xor(a, b)
  {
    hide Xor;
    XorStep(2 * a, 2 * b);
    AppendBit(a, 0);
    AppendBit(b, 0);
    AppendBit(a + b, 0);
    AppendBit(Xor(a, b), 0);
    HalfAndBit(Xor(2 * a, 2 * b), 2 * Xor(a, b));
  }

  lemma {:induction false} XorBelow(a: nat, b: nat, k: nat)
    requires a < Pow(2, k) && b < Pow(2, k)
    ensures Xor(a, b) < Pow(2, k)
    decreases k
  {
    if k > 0 && a > 0 && b > 0 {
      XorBelow(a / 2, b / 2, k - 1);
    }
  }

  /** A term of degree k survives the addition of lower ones. */
  lemma {:induction false} XorLeading(a: nat, b: nat, k: nat)
    requires a < Pow(2, k) <= b < Pow(2, k + 1)
    ensures Pow(2, k) <= Xor(a, b) < Pow(2, k + 1)
    decreases k
  {
    PowStep(2, k);
    if k > 0 && a > 0 {
      PowStep(2, k - 1);
      XorLeading(a / 2, b / 2, k - 1);
    }
  }

  /** Adding x^k to a polynomial of lower degree. */
  lemma {:induction false} XorTerm(a: nat, k: nat)
    requires a < Pow(2, k)
    ensures Xor(a, Pow(2, k)) == a + Pow(2, k)
    decreases k
  {
    PowPositive(2, k);
    XorZero(Pow(2, k));
    if k > 0 && a > 0 {
      PowStep(2, k - 1);
      XorTerm(a / 2, k - 1);
      XorStep(a, Pow(2, k));
      hide Xor;
      hide Pow;
      HalvesOfSum(a, Pow(2, k - 1), Xor(a, 2 * Pow(2, k - 1)));
    }
  }

  lemma HalvesOfSum(a: nat, p: nat, x: nat)
    requires x % 2 == (a + 2 * p) % 2 && x / 2 == a / 2 + p
    ensures x == a + 2 * p
  {
  }

  // ----- multiplication -----

  function Multiply(a: nat, b: nat): nat {
    if b == 0 then 0 else Xor(if b % 2 == 1 then a else 0, 2 * Multiply(a, b / 2))
  }

  lemma MultiplyStep(a: nat, b: nat)
    ensures Multiply(a, 0) == 0
    ensures Multiply(a, b) == Xor(if b % 2 == 1 then a else 0, 2 * Multiply(a, b / 2))
  {
    XorZero(0);
    hide Xor;
  }

  lemma MultiplyDouble(a: nat, b: nat)
    ensures Multiply(a, 2 * b) == 2 * Multiply(a, b)
  {
    MultiplyStep(a, 2 * b);
    XorZero(2 * Multiply(a, b));
  }

  lemma MultiplyOne(a: nat)
    ensures Multiply(a, 1) == a
  {
    MultiplyStep(a, 1);
    MultiplyStep(a, 0);
    XorZero(a);
  }

  lemma {:induction false} MultiplyDistributes(a: nat, b: nat, c: nat)
    ensures Multiply(a, Xor(b, c)) == Xor(Multiply(a, b), Multiply(a, c))
    decreases b + c
  {
    hide Xor;
    hide Multiply;
    XorStep(b, c);
    MultiplyStep(a, b);
    MultiplyStep(a, c);
    MultiplyStep(a, Xor(b, c));
    XorZero(b);
    XorZero(c);
    XorZero(Multiply(a, b));
    XorZero(Multiply(a, c));
    XorZero(a);
    XorSelf(a);
    XorSelf(0);
    if b > 0 && c > 0 {
      MultiplyDistributes(a, b / 2, c / 2);
      XorDouble(Multiply(a, b / 2), Multiply(a, c / 2));
      XorMiddle(if b % 2 == 1 then a else 0, 2 * Multiply(a, b / 2), if c % 2 == 1 then a else 0, 2 * Multiply(a, c / 2));
    }
  }

  lemma {:induction false} MultiplyDistributesLeft(a: nat, b: nat, c: nat)
    ensures Multiply(Xor(a, b), c) == Xor(Multiply(a, c), Multiply(b, c))
    decreases c
  {
    hide Xor;
    hide Multiply;
    MultiplyStep(a, c);
    MultiplyStep(b, c);
    MultiplyStep(Xor(a, b), c);
    XorZero(0);
    if c > 0 {
      MultiplyDistributesLeft(a, b, c / 2);
      XorDouble(Multiply(a, c / 2), Multiply(b, c / 2));
      XorMiddle(if c % 2 == 1 then a else 0, 2 * Multiply(a, c / 2), if c % 2 == 1 then b else 0, 2 * Multiply(b, c / 2));
    }
  }

  lemma {:induction false} MultiplyDoubleLeft(a: nat, b: nat)
    ensures Multiply(2 * a, b) == 2 * Multiply(a, b)
    decreases b
  {
    hide Xor;
    hide Multiply;
    MultiplyStep(a, b);
    MultiplyStep(2 * a, b);
    XorZero(0);
    if b > 0 {
      MultiplyDoubleLeft(a, b / 2);
      XorDouble(if b % 2 == 1 then a else 0, 2 * Multiply(a, b / 2));
    }
  }

  lemma {:induction false} MultiplyZeroOne(a: nat)
    ensures Multiply(0, a) == 0 && Multiply(1, a) == a
    decreases a
  {
    MultiplyStep(0, a);
    MultiplyStep(1, a);
    if a > 0 {
      MultiplyZeroOne(a / 2);
      XorZero(0);
      OddXor(a);
    }
  }

  lemma OddXor(a: nat)
    ensures Xor(if a % 2 == 1 then 1 else 0, 2 * (a / 2)) == a
  {
    var low := if a % 2 == 1 then 1 else 0;
    hide Xor;
    XorStep(low, 2 * (a / 2));
    XorZero(a / 2);
    AppendBit(a / 2, 0);
    AppendBit(a / 2, low);
    HalfAndBit(Xor(low, 2 * (a / 2)), a);
  }

  lemma {:induction false} MultiplyCommutes(a: nat, b: nat)
    ensures Multiply(a, b) == Multiply(b, a)
    decreases b
  {
    hide Xor;
    hide Multiply;
    MultiplyZeroOne(a);
    MultiplyStep(a, b);
    if b > 0 {
      MultiplyCommutes(a, b / 2);
      OddXor(b);
      var low := if b % 2 == 1 then 1 else 0;
      MultiplyDistributesLeft(low, 2 * (b / 2), a);
      MultiplyDoubleLeft(b / 2, a);
    }
  }

  /** The degree of a product is at least that of a factor: nonzero multiples of the modulus are large. */
  lemma {:induction false} ProductDegree(a: nat, b: nat, j: nat, k: nat)
    requires Pow(2, j) <= a < Pow(2, j + 1) && Pow(2, k) <= b < Pow(2, k + 1)
    ensures Pow(2, j + k) <= Multiply(a, b) < Pow(2, j + k + 1)
    decreases k
  {
    hide Xor;
    MultiplyStep(a, b);
    PowStep(2, k);
    if k == 0 {
      MultiplyOne(a);
      assert Pow(2, 0) == 1;
    } else {
      PowStep(2, k - 1);
      ProductDegree(a, b / 2, j, k - 1);
      PowStep(2, j + k - 1);
      PowStep(2, j + k);
      hide Multiply;
      var m := 2 * Multiply(a, b / 2);
      PowMonotone(2, j + 1, j + k);
      XorLeading(if b % 2 == 1 then a else 0, m, j + k);
    }
  }
}
