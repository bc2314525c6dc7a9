/** The consistency check a decoded RSA private key passes through, `src/rsa_der.cpp`. */
module RsaDer {
  import opened NumberTheory
  import opened Digits
  import opened BigInt
  import opened Results
  import opened RsaTheory

  datatype PublicKeyMaterial = PublicKeyMaterial(modulus: seq<Byte>, publicExponent: seq<Byte>)

  datatype PrivateKeyMaterial = PrivateKeyMaterial(
    modulus: seq<Byte>, publicExponent: seq<Byte>, privateExponent: seq<Byte>,
    prime1: seq<Byte>, prime2: seq<Byte>, exponent1: seq<Byte>, exponent2: seq<Byte>, coefficient: seq<Byte>)
  {
    function Integers(): Key {
      Key(Be(modulus), Be(publicExponent), Be(privateExponent),
          Be(prime1), Be(prime2), Be(exponent1), Be(exponent2), Be(coefficient))
    }
  }

  /** `read_odd_greater_than_one_integer`: what the key parser asks of n, e, p and q. */
  predicate OddGreaterThanOne(x: nat) {
    x > 1 && x % 2 == 1
  }

  /** Everything the parser checks about the integers of a private key. */
  ghost predicate Accepted(key: PrivateKeyMaterial) {
    var k := key.Integers();
    && OddGreaterThanOne(k.n) && OddGreaterThanOne(k.e) && OddGreaterThanOne(k.p) && OddGreaterThanOne(k.q)
    && k.d > 0 && k.dp > 0 && k.dq > 0 && k.qi > 0
    && KeyRelations(k)
  }

  method RequireEqual(lhs: Big, rhs: Big) returns (r: Result<()>)
    ensures r.Ok? <==> lhs.Value() == rhs.Value()
  {
    var order := Compare(lhs, rhs);
    if order != 0 {
      return Err(InvalidKey);
    }
    r := Ok(());
  }

  method Reduce(value: Big, modulus: Big) returns (r: Result<Big>)
    ensures r.Ok? <==> modulus.Value() > 0
    ensures r.Ok? ==> r.value.Value() == value.Value() % modulus.Value()
  {
    r := ModAdd(value, ZERO, modulus);
  }

  method MinusOne(prime: Big) returns (r: Result<Big>)
    ensures r.Ok? <==> prime.Value() > 0
    ensures r.Ok? ==> r.value.Value() == prime.Value() - 1
  {
    OneValue();
    r := ModSubtract(prime, ONE, prime);
    if prime.Value() > 0 {
      ModSmall(prime.Value() - 1, prime.Value());
    }
  }

  /** Accepts exactly the keys whose integers satisfy the CRT relations; primality is not tested. */
  method ValidatePrivateKeyMath(key: PrivateKeyMaterial) returns (r: Result<()>)
    ensures r.Ok? <==> KeyRelations(key.Integers())
    ensures var p, q, d, e := Be(key.prime1), Be(key.prime2), Be(key.privateExponent), Be(key.publicExponent);
            var dp, dq := Be(key.exponent1), Be(key.exponent2);
            r.Ok? <==> p > 1 && q > 1 && p * q == Be(key.modulus) && d % (p - 1) == dp && d % (q - 1) == dq
                       && (e * dp) % (p - 1) == 1 && (e * dq) % (q - 1) == 1 && (q * Be(key.coefficient)) % p == 1
  {
    var n := FromBeBytes(key.modulus);
    var e := FromBeBytes(key.publicExponent);
    var d := FromBeBytes(key.privateExponent);
    var p := FromBeBytes(key.prime1);
    var q := FromBeBytes(key.prime2);
    var dp := FromBeBytes(key.exponent1);
    var dq := FromBeBytes(key.exponent2);
    var qi := FromBeBytes(key.coefficient);
    hide Val;
    OneValue();
    var product := Multiply(p, q);
    var _ :- RequireEqual(product, n);
    var pMinusOne := MinusOne(p);
    var qMinusOne := MinusOne(q);
    if pMinusOne.Err? || qMinusOne.Err? {
      return Err(InvalidKey);
    }
    var dModP := Reduce(d, pMinusOne.value);
    var dModQ := Reduce(d, qMinusOne.value);
    if dModP.Err? || dModQ.Err? {
      return Err(InvalidKey);
    }
    var _ :- RequireEqual(dModP.value, dp);
    var _ :- RequireEqual(dModQ.value, dq);
    var edp := ModMultiply(e, dp, pMinusOne.value);
    var edq := ModMultiply(e, dq, qMinusOne.value);
    var qiq := ModMultiply(q, qi, p);
    if edp.Err? || edq.Err? || qiq.Err? {
      return Err(InvalidKey);
    }
    var _ :- RequireEqual(edp.value, ONE);
    var _ :- RequireEqual(edq.value, ONE);
    r := RequireEqual(qiq.value, ONE);
  }
}
