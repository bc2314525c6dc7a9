/** Arithmetic modulo a prime by `BigInt` calls, as the field helpers of `src/p256.cpp` and
    `src/ed25519.cpp` perform it. The modulus is one of the constants. */
module BigField {
  import opened NumberTheory
  import opened Digits
  import opened Words256
  import opened BigInt
  import opened BigIntPower
  import opened PrimeField

  method Constant(words: U256) returns (r: Big)
    ensures r.Value() == Spelled(words)
  {
    SpelledIs(words);
    hide Spelled;
    r := Normalize(words);
  }

  method Small(value: Byte) returns (r: Big)
    ensures r.Value() == value
  {
    BeOne(value);
    r := FromBeBytes([value]);
  }

  method AddModulo(modulus: U256, lhs: Big, rhs: Big) returns (r: Big)
    requires Spelled(modulus) > 0
    ensures r.Value() == FAdd(Spelled(modulus), lhs.Value(), rhs.Value())
  {
    hide Val;
    hide Spelled;
    var p := Constant(modulus);
    var sum := ModAdd(lhs, rhs, p);
    r := sum.value;
  }

  method SubtractModulo(modulus: U256, lhs: Big, rhs: Big) returns (r: Big)
    requires Spelled(modulus) > 0
    ensures r.Value() == FSub(Spelled(modulus), lhs.Value(), rhs.Value())
  {
    hide Val;
    hide Spelled;
    var p := Constant(modulus);
    var difference := ModSubtract(lhs, rhs, p);
    r := difference.value;
  }

  method MultiplyModulo(modulus: U256, lhs: Big, rhs: Big) returns (r: Big)
    requires Spelled(modulus) > 0
    ensures r.Value() == FMul(Spelled(modulus), lhs.Value(), rhs.Value())
  {
    hide Val;
    hide Spelled;
    var p := Constant(modulus);
    var product := ModMultiply(lhs, rhs, p);
    r := product.value;
  }

  /** The power p - 2, whose exponent is a constant of its own. */
  method InvertModulo(modulus: U256, exponent: U256, value: Big) returns (r: Big)
    requires Spelled(modulus) > 1 && Spelled(exponent) == Spelled(modulus) - 2
    ensures r.Value() == FInv(Spelled(modulus), value.Value())
  {
    hide Val;
    hide Spelled;
    hide Pow;
    var p := Constant(modulus);
    var e := Constant(exponent);
    var power := ModExp(value, e, p);
    r := power.value;
  }

  method Equal(lhs: Big, rhs: Big) returns (r: bool)
    ensures r <==> lhs.Value() == rhs.Value()
  {
    var order := Compare(lhs, rhs);
    r := order == 0;
  }
}
