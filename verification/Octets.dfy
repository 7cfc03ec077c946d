/** Bytes with exclusive or. */
module Octets {

  /** A byte; the wrapper keeps the solver from taking it apart into bits. */
  datatype Octet = Octet(v: bv8)

  const NULL := Octet(0)

  function Xor(a: Octet, b: Octet): Octet {
    Octet(a.v ^ b.v)
  }

  /** The byte as a number. */
  function Value(a: Octet): (n: nat)
    ensures n < 256
  {
    a.v as nat
  }

  function OctetOf(n: nat): Octet
    requires n < 256
  {
    Octet(n as bv8)
  }

  lemma OctetBack(a: Octet)
    ensures OctetOf(Value(a)) == a
  {}

  function Increment(a: Octet): Octet { Octet(a.v + 1) }

  lemma IncrementValue(a: Octet)
    ensures a.v == 255 <==> Value(a) == 255
    ensures a.v != 255 ==> Value(Increment(a)) == Value(a) + 1
    ensures Value(NULL) == 0
  {}

  lemma {:induction false} NumberBack(n: nat)
    requires n < 256
    ensures Value(OctetOf(n)) == n
  {
    if n == 0 {
      IncrementValue(NULL);
      OctetBack(NULL);
    } else {
      hide Value, OctetOf, Increment;
      var a := OctetOf(n - 1);
      NumberBack(n - 1);
      IncrementValue(a);
      OctetBack(Increment(a));
    }
  }

  lemma XorLaws(a: Octet, b: Octet)
    ensures Xor(NULL, a) == a && Xor(a, NULL) == a
    ensures Xor(Xor(a, b), b) == a
    ensures Xor(a, b) == Xor(b, a)
  {}

  lemma XorRegroup(a: Octet, b: Octet, c: Octet, d: Octet)
    ensures Xor(Xor(a, b), Xor(c, d)) == Xor(Xor(a, c), Xor(b, d))
  {}

  /** The number that a byte string stands for, most significant byte first. */
  function Number(s: seq<Octet>): nat {
    if s == [] then 0 else 256 * Number(s[..|s| - 1]) + Value(s[|s| - 1])
  }
}
