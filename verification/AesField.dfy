/** The field of AES, section 4.2 of FIPS 197: xtime and Multiply are products modulo x^8 + x^4 + x^3 + x + 1, and the
    substitution table is the affine image of the inverse in this field. */
module AesField {
  import opened BinaryPolynomials
  import opened Octets
  import opened AesColumns
  import opened AesTables
  import opened AesCipher
  import opened AesModes

  /** Coefficient n of a byte as a polynomial. */
  predicate Bit8(a: Octet, n: int) {
    match n
    case 0 => a.v & 0x01 != 0 case 1 => a.v & 0x02 != 0 case 2 => a.v & 0x04 != 0 case 3 => a.v & 0x08 != 0
    case 4 => a.v & 0x10 != 0 case 5 => a.v & 0x20 != 0 case 6 => a.v & 0x40 != 0 case 7 => a.v & 0x80 != 0
    case _ => false
  }

  function BitsOf(a: Octet): int -> bool { (n: int) => Bit8(a, n) }

  /** x^8 + x^4 + x^3 + x + 1. */
  function Modulus(): int -> bool { (n: int) => n == 0 || n == 1 || n == 3 || n == 4 || n == 8 }

  /** r is the remainder of the product of a and b, with quotient q. */
  ghost predicate Remainder(r: Octet, a: Octet, b: Octet, q: int -> bool) {
    forall n {:trigger Bit8(r, n)} :: Bit8(r, n) == (Conv(BitsOf(b), 8, BitsOf(a), n) != Conv(q, 8, Modulus(), n))
  }

  // ---- multiplication by x

  lemma XTimeBits(a: Octet, n: int)
    ensures Bit8(XTime(a), n) == (Bit8(a, n - 1) != (Bit8(a, 7) && Modulus()(n)))
  {
    LowBits(a);
    if n == 8 { assert Bit8(a, n - 1) == Bit8(a, 7); }
  }

  lemma LowBits(a: Octet)
    ensures var x := XTime(a);
      && Bit8(x, 0) == Bit8(a, 7) && Bit8(x, 1) == (Bit8(a, 0) != Bit8(a, 7)) && Bit8(x, 2) == Bit8(a, 1)
      && Bit8(x, 3) == (Bit8(a, 2) != Bit8(a, 7)) && Bit8(x, 4) == (Bit8(a, 3) != Bit8(a, 7)) && Bit8(x, 5) == Bit8(a, 4)
      && Bit8(x, 6) == Bit8(a, 5) && Bit8(x, 7) == Bit8(a, 6)
  {}

  lemma XorBits(a: Octet, b: Octet, n: int)
    ensures Bit8(Xor(a, b), n) == (Bit8(a, n) != Bit8(b, n))
  {
    hide Bit8, Xor;
    if 0 <= n < 8 {
      XorLow(a, b);
      XorHigh(a, b);
      assert n == 0 || n == 1 || n == 2 || n == 3 || n == 4 || n == 5 || n == 6 || n == 7;
    } else {
      Outside(a, n);
      Outside(b, n);
      Outside(Xor(a, b), n);
    }
  }

  lemma Outside(a: Octet, n: int)
    requires n < 0 || n >= 8
    ensures !Bit8(a, n)
  {}

  lemma XorLow(a: Octet, b: Octet)
    ensures var x := Xor(a, b);
      && Bit8(x, 0) == (Bit8(a, 0) != Bit8(b, 0)) && Bit8(x, 1) == (Bit8(a, 1) != Bit8(b, 1))
      && Bit8(x, 2) == (Bit8(a, 2) != Bit8(b, 2)) && Bit8(x, 3) == (Bit8(a, 3) != Bit8(b, 3))
  {}

  lemma XorHigh(a: Octet, b: Octet)
    ensures var x := Xor(a, b);
      && Bit8(x, 4) == (Bit8(a, 4) != Bit8(b, 4)) && Bit8(x, 5) == (Bit8(a, 5) != Bit8(b, 5))
      && Bit8(x, 6) == (Bit8(a, 6) != Bit8(b, 6)) && Bit8(x, 7) == (Bit8(a, 7) != Bit8(b, 7))
  {}

  lemma SameOctet(a: Octet, b: Octet)
    requires forall n {:trigger Bit8(a, n)} :: Bit8(a, n) == Bit8(b, n)
    ensures a == b
  {
    assert Bit8(a, 0) == Bit8(b, 0) && Bit8(a, 1) == Bit8(b, 1) && Bit8(a, 2) == Bit8(b, 2) && Bit8(a, 3) == Bit8(b, 3);
    assert Bit8(a, 4) == Bit8(b, 4) && Bit8(a, 5) == Bit8(b, 5) && Bit8(a, 6) == Bit8(b, 6) && Bit8(a, 7) == Bit8(b, 7);
    EightBits(a, b);
  }

  lemma EightBits(a: Octet, b: Octet)
    requires Bit8(a, 0) == Bit8(b, 0) && Bit8(a, 1) == Bit8(b, 1) && Bit8(a, 2) == Bit8(b, 2) && Bit8(a, 3) == Bit8(b, 3)
    requires Bit8(a, 4) == Bit8(b, 4) && Bit8(a, 5) == Bit8(b, 5) && Bit8(a, 6) == Bit8(b, 6) && Bit8(a, 7) == Bit8(b, 7)
    ensures a == b
  {}

  // ---- the product

  function Times(a: Octet, i: nat): Octet { if i == 0 then a else XTime(Times(a, i - 1)) }

  /** The sum of a * x^i over the set bits i < m of b. */
  function Sum(a: Octet, b: Octet, m: nat): Octet {
    if m == 0 then NULL else Xor(Sum(a, b, m - 1), if Bit8(b, m - 1) then Times(a, m - 1) else NULL)
  }

  /** The product in the field. */
  function Product8(a: Octet, b: Octet): Octet { Sum(a, b, 8) }

  /** a * x^i and its remainder differ by a multiple of the modulus. */
  lemma {:induction false} TimesQuotient(a: Octet, i: nat) returns (q: int -> bool)
    ensures forall n {:trigger Bit8(Times(a, i), n)} :: Bit8(a, n - i) == (Bit8(Times(a, i), n) != Conv(q, i, Modulus(), n))
  {
    hide Bit8, XTime, Modulus, Conv;
    if i == 0 {
      q := n => false;
      NoTerms(q, Modulus());
      forall n {:trigger Bit8(Times(a, i), n)} ensures Bit8(a, n - i) == (Bit8(Times(a, i), n) != Conv(q, i, Modulus(), n)) {
        assert n - i == n;
      }
    } else {
      var q' := TimesQuotient(a, i - 1);
      var t, y := Bit8(Times(a, i - 1), 7), Times(a, i - 1);
      q := (k: int) => if k == 0 then t else q'(k - 1);
      forall n {:trigger Bit8(Times(a, i), n)} ensures Bit8(a, n - i) == (Bit8(Times(a, i), n) != Conv(q, i, Modulus(), n)) {
        XTimeBits(y, n);
        assert Bit8(a, (n - 1) - (i - 1)) == (Bit8(y, n - 1) != Conv(q', i - 1, Modulus(), n - 1));
        assert (n - 1) - (i - 1) == n - i;
        FirstTerm(q, t, q', i - 1, Modulus(), n);
      }
    }
  }

  lemma NoTerms(f: int -> bool, g: int -> bool)
    ensures forall n {:trigger Conv(f, 0, g, n)} :: !Conv(f, 0, g, n)
  {}

  /** The lowest term of the left factor apart. */
  lemma FirstTerm(q: int -> bool, t: bool, q': int -> bool, m: nat, g: int -> bool, n: int)
    requires forall k {:trigger q(k)} :: q(k) == if k == 0 then t else q'(k - 1)
    ensures Conv(q, m + 1, g, n) == ((t && g(n)) != Conv(q', m, g, n - 1))
  {
    forall k {:trigger q'(k)} | 0 <= k < m ensures q(1 + k) == q'(k) {}
    ConvSplit(q, q, q', 1, m, g, n);
    assert Conv(q, 1, g, n) == (Conv(q, 0, g, n) != (q(0) && g(n - 0)));
    assert n - 0 == n;
  }

  lemma {:induction false} SumQuotient(a: Octet, b: Octet, m: nat) returns (q: int -> bool)
    requires m <= 8
    ensures forall n {:trigger Bit8(Sum(a, b, m), n)} ::
      Bit8(Sum(a, b, m), n) == (Conv(BitsOf(b), m, BitsOf(a), n) != Conv(q, 8, Modulus(), n))
  {
    hide Bit8, Modulus, Conv, Times;
    if m == 0 {
      q := n => false;
      forall n {:trigger Bit8(Sum(a, b, m), n)}
        ensures Bit8(Sum(a, b, m), n) == (Conv(BitsOf(b), m, BitsOf(a), n) != Conv(q, 8, Modulus(), n))
      {
        NoBits(n);
        NoTerms(BitsOf(b), BitsOf(a));
        NullFactor(q, 8, Modulus(), n);
      }
    } else {
      var q0 := SumQuotient(a, b, m - 1);
      var q1 := TimesQuotient(a, m - 1);
      var s := Bit8(b, m - 1);
      q := (k: int) => q0(k) != (s && 0 <= k < m - 1 && q1(k));
      forall n {:trigger Bit8(Sum(a, b, m), n)}
        ensures Bit8(Sum(a, b, m), n) == (Conv(BitsOf(b), m, BitsOf(a), n) != Conv(q, 8, Modulus(), n))
      {
        SumStep(a, b, m, n, q0, q1, q);
      }
    }
  }

  lemma NoBits(n: int)
    ensures !Bit8(NULL, n)
  {}

  lemma {:induction false} NullFactor(q: int -> bool, m: nat, g: int -> bool, n: int)
    requires forall k {:trigger q(k)} :: 0 <= k < m ==> !q(k)
    ensures !Conv(q, m, g, n)
  {
    if m > 0 { NullFactor(q, m - 1, g, n); }
  }

  lemma SumStep(a: Octet, b: Octet, m: nat, n: int, q0: int -> bool, q1: int -> bool, q: int -> bool)
    requires 1 <= m <= 8
    requires Bit8(Sum(a, b, m - 1), n) == (Conv(BitsOf(b), m - 1, BitsOf(a), n) != Conv(q0, 8, Modulus(), n))
    requires forall k {:trigger Bit8(Times(a, m - 1), k)} :: Bit8(a, k - (m - 1)) == (Bit8(Times(a, m - 1), k) != Conv(q1, m - 1, Modulus(), k))
    requires forall k {:trigger q(k)} :: q(k) == (q0(k) != (Bit8(b, m - 1) && 0 <= k < m - 1 && q1(k)))
    ensures Bit8(Sum(a, b, m), n) == (Conv(BitsOf(b), m, BitsOf(a), n) != Conv(q, 8, Modulus(), n))
  {
    hide Bit8, Modulus, Times, Conv;
    var s := Bit8(b, m - 1);
    var cut := (k: int) => s && 0 <= k < m - 1 && q1(k);
    ConvAddLeft(q, q0, cut, 8, Modulus(), n);
    ConvTail(cut, m - 1, 8, Modulus(), n);
    LastTerm(BitsOf(b), m, BitsOf(a), n);
    if s {
      XorBits(Sum(a, b, m - 1), Times(a, m - 1), n);
      ConvSame(cut, q1, m - 1, Modulus(), Modulus(), n);
      assert Bit8(a, n - (m - 1)) == (Bit8(Times(a, m - 1), n) != Conv(q1, m - 1, Modulus(), n));
    } else {
      XorBits(Sum(a, b, m - 1), NULL, n);
      NoBits(n);
      NullFactor(cut, m - 1, Modulus(), n);
    }
  }

  lemma LastTerm(f: int -> bool, m: nat, g: int -> bool, n: int)
    requires m > 0
    ensures Conv(f, m, g, n) == (Conv(f, m - 1, g, n) != (f(m - 1) && g(n - (m - 1))))
  {}

  /** The product of two bytes as polynomials, reduced. */
  lemma ProductIsRemainder(a: Octet, b: Octet) returns (q: int -> bool)
    ensures Remainder(Product8(a, b), a, b, q)
  {
    hide Bit8, Modulus, Conv;
    q := SumQuotient(a, b, 8);
  }

  /** There is only one remainder. */
  lemma RemainderUnique(r: Octet, s: Octet, a: Octet, b: Octet, q: int -> bool, t: int -> bool)
    requires Remainder(r, a, b, q) && Remainder(s, a, b, t)
    ensures r == s
  {
    hide Bit8, Conv, Modulus;
    var d := (k: int) => q(k) != t(k);
    forall n {:trigger Bit8(r, n)} ensures (Bit8(r, n) != Bit8(s, n)) == Conv(d, 8, Modulus(), n) {
      ConvAddLeft(d, q, t, 8, Modulus(), n);
      assert Bit8(s, n) == (Conv(BitsOf(b), 8, BitsOf(a), n) != Conv(t, 8, Modulus(), n));
    }
    NoQuotient(r, s, d, 8);
    forall n {:trigger Bit8(r, n)} ensures Bit8(r, n) == Bit8(s, n) { NullFactor(d, 8, Modulus(), n); }
    SameOctet(r, s);
  }

  /** A multiple of the modulus of degree below eight is zero: its quotient has no terms, from the top down. */
  lemma {:induction false} NoQuotient(r: Octet, s: Octet, d: int -> bool, m: nat)
    requires m <= 8 && forall n {:trigger Bit8(r, n)} :: (Bit8(r, n) != Bit8(s, n)) == Conv(d, 8, Modulus(), n)
    requires forall k {:trigger d(k)} :: m <= k < 8 ==> !d(k)
    ensures forall k {:trigger d(k)} :: 0 <= k < 8 ==> !d(k)
  {
    hide Bit8, Conv;
    if m > 0 {
      var n := m + 7;
      ConvTail(d, m, 8, Modulus(), n);
      assert (Bit8(r, n) != Bit8(s, n)) == Conv(d, 8, Modulus(), n);
      Outside(r, n);
      Outside(s, n);
      LastTerm(d, m, Modulus(), n);
      ConvZero(d, m - 1, Modulus(), n);
      assert n - (m - 1) == 8;
      NoQuotient(r, s, d, m - 1);
    }
  }

  /** Multiply, which looks at five bits of its second argument, is the product for arguments below 32. */
  lemma MultiplyIsProduct(a: Octet, y: bv8)
    requires y < 32
    ensures Multiply(a, y) == Product8(a, Octet(y))
  {
    hide XTime, Xor;
    Unrolled(a, Octet(y));
    FiveBits(y);
    XorLaws(Bit(y, a), NULL);
    assert Sum(a, Octet(y), 1) == Bit(y, a);
    var s := Multiply(a, y);
    assert Sum(a, Octet(y), 5) == s;
    XorLaws(s, NULL);
  }

  lemma Unrolled(a: Octet, b: Octet)
    ensures Times(a, 0) == a && Times(a, 1) == XTime(a) && Times(a, 2) == XTime(XTime(a)) && Times(a, 3) == XTime(XTime(XTime(a)))
    ensures Times(a, 4) == XTime(XTime(XTime(XTime(a))))
    ensures Sum(a, b, 0) == NULL && Sum(a, b, 1) == Xor(NULL, if Bit8(b, 0) then Times(a, 0) else NULL)
    ensures Sum(a, b, 2) == Xor(Sum(a, b, 1), if Bit8(b, 1) then Times(a, 1) else NULL)
    ensures Sum(a, b, 3) == Xor(Sum(a, b, 2), if Bit8(b, 2) then Times(a, 2) else NULL)
    ensures Sum(a, b, 4) == Xor(Sum(a, b, 3), if Bit8(b, 3) then Times(a, 3) else NULL)
    ensures Sum(a, b, 5) == Xor(Sum(a, b, 4), if Bit8(b, 4) then Times(a, 4) else NULL)
    ensures Sum(a, b, 6) == Xor(Sum(a, b, 5), if Bit8(b, 5) then Times(a, 5) else NULL)
    ensures Sum(a, b, 7) == Xor(Sum(a, b, 6), if Bit8(b, 6) then Times(a, 6) else NULL)
    ensures Sum(a, b, 8) == Xor(Sum(a, b, 7), if Bit8(b, 7) then Times(a, 7) else NULL)
  {
    hide XTime, Xor, Bit8;
    assert Times(a, 1) == XTime(Times(a, 0));
    assert Times(a, 2) == XTime(Times(a, 1));
    assert Times(a, 3) == XTime(Times(a, 2));
  }

  lemma FiveBits(y: bv8)
    requires y < 32
    ensures var b := Octet(y);
      && Bit8(b, 0) == (y & 1 == 1) && Bit8(b, 1) == ((y >> 1) & 1 == 1) && Bit8(b, 2) == ((y >> 2) & 1 == 1)
      && Bit8(b, 3) == ((y >> 3) & 1 == 1) && Bit8(b, 4) == ((y >> 4) & 1 == 1) && !Bit8(b, 5) && !Bit8(b, 6) && !Bit8(b, 7)
  {}

  /** One entry of MixColumns, section 5.1.3: the row 02, 03, 01, 01 times the column. */
  lemma MixIsMatrix(a: Octet, b: Octet, c: Octet, d: Octet)
    ensures Mix(a, b, c, d) == Xor(Xor(Xor(Product8(a, Octet(2)), Product8(b, Octet(3))), Product8(c, Octet(1))), Product8(d, Octet(1)))
  {
    hide XTime, Xor, Product8, Multiply;
    MultiplyIsProduct(a, 2);
    MultiplyIsProduct(b, 3);
    MultiplyIsProduct(c, 1);
    MultiplyIsProduct(d, 1);
    SmallMultiples(c);
    SmallMultiples(d);
    TwoAndThree(a);
    TwoAndThree(b);
  }

  lemma TwoAndThree(a: Octet)
    ensures Multiply(a, 2) == XTime(a) && Multiply(a, 3) == Xor(XTime(a), a)
  {
    hide XTime, Xor;
    XorLaws(NULL, NULL);
    XorLaws(XTime(a), NULL);
    XorLaws(a, XTime(a));
    XorLaws(Xor(a, XTime(a)), NULL);
  }

  /** One entry of InvMixColumns, section 5.3.3: the row 0e, 0b, 0d, 09 times the column. */
  lemma InvMixIsMatrix(a: Octet, b: Octet, c: Octet, d: Octet)
    ensures InvMix(a, b, c, d) == Xor(Xor(Xor(Product8(a, Octet(14)), Product8(b, Octet(11))), Product8(c, Octet(13))), Product8(d, Octet(9)))
  {
    hide Xor, Product8, Multiply;
    MultiplyIsProduct(a, 14);
    MultiplyIsProduct(b, 11);
    MultiplyIsProduct(c, 13);
    MultiplyIsProduct(d, 9);
  }

  // ---- the substitution table, section 5.1.1

  function Turn(a: bv8, k: nat): bv8
    requires 1 <= k <= 4
  {
    match k case 1 => (a << 1) | (a >> 7) case 2 => (a << 2) | (a >> 6) case 3 => (a << 3) | (a >> 5) case _ => (a << 4) | (a >> 4)
  }

  /** The affine map: bit i is the sum of bits i, i + 4, .., i + 7 modulo 8, plus bit i of 0x63. */
  function Affine(a: bv8): bv8 { a ^ Turn(a, 1) ^ Turn(a, 2) ^ Turn(a, 3) ^ Turn(a, 4) ^ 0x63 }

  predicate Sum5(a: bool, b: bool, c: bool, d: bool, e: bool) { a != (b != (c != (d != e))) }

  lemma AffineBits(a: bv8)
    ensures var x, y := Octet(a), Octet(Affine(a));
      && Bit8(y, 0) == !Sum5(Bit8(x, 0), Bit8(x, 4), Bit8(x, 5), Bit8(x, 6), Bit8(x, 7))
      && Bit8(y, 1) == !Sum5(Bit8(x, 1), Bit8(x, 5), Bit8(x, 6), Bit8(x, 7), Bit8(x, 0))
      && Bit8(y, 2) == Sum5(Bit8(x, 2), Bit8(x, 6), Bit8(x, 7), Bit8(x, 0), Bit8(x, 1))
      && Bit8(y, 3) == Sum5(Bit8(x, 3), Bit8(x, 7), Bit8(x, 0), Bit8(x, 1), Bit8(x, 2))
      && Bit8(y, 4) == Sum5(Bit8(x, 4), Bit8(x, 0), Bit8(x, 1), Bit8(x, 2), Bit8(x, 3))
      && Bit8(y, 5) == !Sum5(Bit8(x, 5), Bit8(x, 1), Bit8(x, 2), Bit8(x, 3), Bit8(x, 4))
      && Bit8(y, 6) == !Sum5(Bit8(x, 6), Bit8(x, 2), Bit8(x, 3), Bit8(x, 4), Bit8(x, 5))
      && Bit8(y, 7) == Sum5(Bit8(x, 7), Bit8(x, 3), Bit8(x, 4), Bit8(x, 5), Bit8(x, 6))
  {}

  /** The inverse of the affine map. */
  function Back(a: bv8): bv8 { Turn(a, 1) ^ Turn(a, 3) ^ Turn(Turn(a, 4), 2) ^ 0x05 }

  lemma AffineBack(a: bv8)
    ensures Affine(Back(a)) == a
  {}

  /** The product in one expression. */
  function Flat(a: bv8, b: bv8): bv8 {
    var a1 := Twice8(a);
    var a2 := Twice8(a1);
    var a3 := Twice8(a2);
    var a4 := Twice8(a3);
    var a5 := Twice8(a4);
    var a6 := Twice8(a5);
    var a7 := Twice8(a6);
    var s := Plus(Plus(Plus(Plus(0, b & 0x01, a), b & 0x02, a1), b & 0x04, a2), b & 0x08, a3);
    Plus(Plus(Plus(Plus(s, b & 0x10, a4), b & 0x20, a5), b & 0x40, a6), b & 0x80, a7)
  }

  function Twice8(a: bv8): bv8 { if a & 0x80 == 0 then a << 1 else (a << 1) ^ 0x1b }

  function Plus(s: bv8, m: bv8, a: bv8): bv8 { s ^ (if m == 0 then 0 else a) }

  lemma InverseEighth0(x: bv8)
    requires x >> 5 == 0
    ensures x == 0 || Flat(x, Back(SBox(x))) == 1
  {}

  lemma InverseEighth1(x: bv8)
    requires x >> 5 == 1
    ensures Flat(x, Back(SBox(x))) == 1
  {}

  lemma InverseEighth2(x: bv8)
    requires x >> 5 == 2
    ensures Flat(x, Back(SBox(x))) == 1
  {}

  lemma InverseEighth3(x: bv8)
    requires x >> 5 == 3
    ensures Flat(x, Back(SBox(x))) == 1
  {}

  lemma InverseEighth4(x: bv8)
    requires x >> 5 == 4
    ensures Flat(x, Back(SBox(x))) == 1
  {}

  lemma InverseEighth5(x: bv8)
    requires x >> 5 == 5
    ensures Flat(x, Back(SBox(x))) == 1
  {}

  lemma InverseEighth6(x: bv8)
    requires x >> 5 == 6
    ensures Flat(x, Back(SBox(x))) == 1
  {}

  lemma InverseEighth7(x: bv8)
    requires x >> 5 == 7
    ensures Flat(x, Back(SBox(x))) == 1
  {}

  lemma InverseFlat(x: bv8)
    requires x != 0
    ensures Flat(x, Back(SBox(x))) == 1
  {
    hide Flat, Back, SBox;
    match x >> 5 {
      case 0 => InverseEighth0(x); case 1 => InverseEighth1(x); case 2 => InverseEighth2(x); case 3 => InverseEighth3(x);
      case 4 => InverseEighth4(x); case 5 => InverseEighth5(x); case 6 => InverseEighth6(x); case _ => InverseEighth7(x);
    }
  }

  lemma TwiceIsXTime(a: bv8)
    ensures Octet(Twice8(a)) == XTime(Octet(a))
  {}

  lemma PlusStep(s: bv8, m: bv8, a: bv8)
    ensures Octet(Plus(s, m, a)) == Xor(Octet(s), if m != 0 then Octet(a) else NULL)
  {}

  lemma FlatIsProduct(a: bv8, b: bv8)
    ensures Octet(Flat(a, b)) == Product8(Octet(a), Octet(b))
  {
    hide XTime, Twice8, Xor, Plus;
    var a1 := Twice8(a); var a2 := Twice8(a1); var a3 := Twice8(a2); var a4 := Twice8(a3);
    var a5 := Twice8(a4); var a6 := Twice8(a5); var a7 := Twice8(a6);
    TwiceIsXTime(a); TwiceIsXTime(a1); TwiceIsXTime(a2); TwiceIsXTime(a3); TwiceIsXTime(a4); TwiceIsXTime(a5); TwiceIsXTime(a6);
    var x, y := Octet(a), Octet(b);
    Unrolled(x, y);
    assert Times(x, 5) == Octet(a5) && Times(x, 6) == Octet(a6) && Times(x, 7) == Octet(a7) by {
      assert Times(x, 5) == XTime(Times(x, 4)) && Times(x, 6) == XTime(Times(x, 5)) && Times(x, 7) == XTime(Times(x, 6));
    }
    var s1 := Plus(0, b & 0x01, a);
    var s2 := Plus(s1, b & 0x02, a1);
    var s3 := Plus(s2, b & 0x04, a2);
    var s4 := Plus(s3, b & 0x08, a3);
    var s5 := Plus(s4, b & 0x10, a4);
    var s6 := Plus(s5, b & 0x20, a5);
    var s7 := Plus(s6, b & 0x40, a6);
    PlusStep(0, b & 0x01, a); PlusStep(s1, b & 0x02, a1); PlusStep(s2, b & 0x04, a2); PlusStep(s3, b & 0x08, a3);
    PlusStep(s4, b & 0x10, a4); PlusStep(s5, b & 0x20, a5); PlusStep(s6, b & 0x40, a6); PlusStep(s7, b & 0x80, a7);
  }

  /** Every entry of sbox is the affine image of the inverse of its index, with zero for zero. */
  lemma SBoxIsInverse(x: bv8) returns (y: bv8)
    ensures SBox(x) == Affine(y)
    ensures if x == 0 then y == 0 else Product8(Octet(x), Octet(y)) == Octet(1)
  {
    hide Product8, Affine, SBox, Back, Flat;
    y := Back(SBox(x));
    AffineBack(SBox(x));
    if x == 0 {
      BackOfZero();
    } else {
      InverseFlat(x);
      FlatIsProduct(x, y);
    }
  }

  lemma BackOfZero()
    ensures Back(SBox(0)) == 0
  {}

  // ---- the round constants, section 5.2

  /** Rcon[i] is x to the power i - 1. */
  lemma {:induction false} RoundConstants(i: nat)
    requires 1 <= i <= 7
    ensures Octet(Rcon(i)) == Times(Octet(1), i - 1)
  {
    hide XTime;
    if i > 1 {
      RoundConstants(i - 1);
      NextConstant(i);
    }
  }

  lemma NextConstant(i: nat)
    requires 2 <= i <= 7
    ensures Octet(Rcon(i)) == XTime(Octet(Rcon(i - 1)))
  {}
}
