/** The MixColumns step of AES on one column, and the proof that InvMixColumns undoes it: both are linear
    over the bytes and the inverse matrix times the matrix is the identity on the unit columns. */
module AesColumns {
  import opened Octets

  /** xtime: multiplication by x modulo x^8 + x^4 + x^3 + x + 1. */
  function XTime(a: Octet): Octet {
    Octet((a.v << 1) ^ (((a.v >> 7) & 1) * 0x1b))
  }

  /** The product of a byte with the lowest bit of y. */
  function Bit(y: bv8, a: Octet): Octet {
    if y & 1 == 1 then a else NULL
  }

  /** Multiply: the sum of a * x^i over the set bits i < 5 of y. */
  function Multiply(a: Octet, y: bv8): Octet {
    Xor(Xor(Xor(Xor(
      Bit(y, a),
      Bit(y >> 1, XTime(a))),
      Bit(y >> 2, XTime(XTime(a)))),
      Bit(y >> 3, XTime(XTime(XTime(a))))),
      Bit(y >> 4, XTime(XTime(XTime(XTime(a))))))
  }

  /** One entry of the MixColumns matrix times a column: 2a + 3b + c + d. */
  function Mix(a: Octet, b: Octet, c: Octet, d: Octet): Octet {
    Xor(Xor(Xor(XTime(a), Xor(XTime(b), b)), c), d)
  }

  /** One entry of the inverse matrix times a column: 14a + 11b + 13c + 9d. */
  function InvMix(a: Octet, b: Octet, c: Octet, d: Octet): Octet {
    Xor(Xor(Xor(Multiply(a, 0x0e), Multiply(b, 0x0b)), Multiply(c, 0x0d)), Multiply(d, 0x09))
  }

  // ---- the two matrices are inverse to each other: both are linear, and they are on the unit columns ----

  /** Multiplication by x is linear. */
  lemma XTimeXor(a: Octet, b: Octet)
    ensures XTime(Xor(a, b)) == Xor(XTime(a), XTime(b))
  {}

  lemma BitXor(y: bv8, a: Octet, b: Octet)
    ensures Bit(y, Xor(a, b)) == Xor(Bit(y, a), Bit(y, b))
  {}

  lemma MultiplyXor(a: Octet, b: Octet, y: bv8)
    ensures Multiply(Xor(a, b), y) == Xor(Multiply(a, y), Multiply(b, y))
  {
    hide XTime, Bit, Xor;
    var a1, b1 := XTime(a), XTime(b);
    var a2, b2 := XTime(a1), XTime(b1);
    var a3, b3 := XTime(a2), XTime(b2);
    XTimeXor(a, b);
    XTimeXor(a1, b1);
    XTimeXor(a2, b2);
    XTimeXor(a3, b3);
    BitXor(y, a, b);
    BitXor(y >> 1, a1, b1);
    BitXor(y >> 2, a2, b2);
    BitXor(y >> 3, a3, b3);
    BitXor(y >> 4, XTime(a3), XTime(b3));
    var p, q := Bit(y, a), Bit(y, b);
    var p1, q1 := Bit(y >> 1, a1), Bit(y >> 1, b1);
    var p2, q2 := Bit(y >> 2, a2), Bit(y >> 2, b2);
    var p3, q3 := Bit(y >> 3, a3), Bit(y >> 3, b3);
    Fold(p, q, p1, q1, p2, q2, p3, q3);
    XorRegroup(Xor(Xor(Xor(p, p1), p2), p3), Xor(Xor(Xor(q, q1), q2), q3), Bit(y >> 4, XTime(a3)), Bit(y >> 4, XTime(b3)));
  }

  /** A sum of four sums of two is a sum of two sums of four. */
  lemma Fold(p: Octet, q: Octet, p1: Octet, q1: Octet, p2: Octet, q2: Octet, p3: Octet, q3: Octet)
    ensures Xor(Xor(Xor(Xor(p, q), Xor(p1, q1)), Xor(p2, q2)), Xor(p3, q3))
         == Xor(Xor(Xor(Xor(p, p1), p2), p3), Xor(Xor(Xor(q, q1), q2), q3))
  {
    hide Xor;
    XorRegroup(p, q, p1, q1);
    XorRegroup(Xor(p, p1), Xor(q, q1), p2, q2);
    XorRegroup(Xor(Xor(p, p1), p2), Xor(Xor(q, q1), q2), p3, q3);
  }

  /** A column of the state. */
  datatype Column = Column(a: Octet, b: Octet, c: Octet, d: Octet)

  function Plus(p: Column, q: Column): Column {
    Column(Xor(p.a, q.a), Xor(p.b, q.b), Xor(p.c, q.c), Xor(p.d, q.d))
  }

  function MixColumn(p: Column): Column {
    Column(Mix(p.a, p.b, p.c, p.d), Mix(p.b, p.c, p.d, p.a), Mix(p.c, p.d, p.a, p.b), Mix(p.d, p.a, p.b, p.c))
  }

  function Back(p: Column): Octet {
    InvMix(p.a, p.b, p.c, p.d)
  }

  lemma MixXor(a: Octet, b: Octet, c: Octet, d: Octet, e: Octet, f: Octet, g: Octet, h: Octet)
    ensures Mix(Xor(a, e), Xor(b, f), Xor(c, g), Xor(d, h)) == Xor(Mix(a, b, c, d), Mix(e, f, g, h))
  {
    hide XTime, Xor;
    XTimeXor(a, e);
    XTimeXor(b, f);
    XorRegroup(XTime(b), XTime(f), b, f);
    Fold(XTime(a), XTime(e), Xor(XTime(b), b), Xor(XTime(f), f), c, g, d, h);
  }

  lemma MixColumnPlus(p: Column, q: Column)
    ensures MixColumn(Plus(p, q)) == Plus(MixColumn(p), MixColumn(q))
  {
    hide Mix, Xor;
    MixXor(p.a, p.b, p.c, p.d, q.a, q.b, q.c, q.d);
    MixXor(p.b, p.c, p.d, p.a, q.b, q.c, q.d, q.a);
    MixXor(p.c, p.d, p.a, p.b, q.c, q.d, q.a, q.b);
    MixXor(p.d, p.a, p.b, p.c, q.d, q.a, q.b, q.c);
  }

  lemma BackPlus(p: Column, q: Column)
    ensures Back(Plus(p, q)) == Xor(Back(p), Back(q))
  {
    hide Multiply, Xor;
    MultiplyXor(p.a, q.a, 0x0e);
    MultiplyXor(p.b, q.b, 0x0b);
    MultiplyXor(p.c, q.c, 0x0d);
    MultiplyXor(p.d, q.d, 0x09);
    Fold(Multiply(p.a, 0x0e), Multiply(q.a, 0x0e), Multiply(p.b, 0x0b), Multiply(q.b, 0x0b),
         Multiply(p.c, 0x0d), Multiply(q.c, 0x0d), Multiply(p.d, 0x09), Multiply(q.d, 0x09));
  }

  lemma BitLaws(y: bv8, z: bv8, a: Octet)
    ensures Xor(Bit(y, a), Bit(z, a)) == Bit(y ^ z, a)
  {}

  lemma ShiftXor(y: bv8, z: bv8)
    ensures (y ^ z) >> 1 == (y >> 1) ^ (z >> 1) && (y ^ z) >> 2 == (y >> 2) ^ (z >> 2)
    ensures (y ^ z) >> 3 == (y >> 3) ^ (z >> 3) && (y ^ z) >> 4 == (y >> 4) ^ (z >> 4)
  {}

  /** Multiply distributes over the sum of its second arguments. */
  lemma MultiplySum(a: Octet, y: bv8, z: bv8)
    ensures Xor(Multiply(a, y), Multiply(a, z)) == Multiply(a, y ^ z)
  {
    hide XTime, Bit, Xor;
    var a1 := XTime(a);
    var a2 := XTime(a1);
    var a3 := XTime(a2);
    var a4 := XTime(a3);
    ShiftXor(y, z);
    BitLaws(y, z, a);
    BitLaws(y >> 1, z >> 1, a1);
    BitLaws(y >> 2, z >> 2, a2);
    BitLaws(y >> 3, z >> 3, a3);
    BitLaws(y >> 4, z >> 4, a4);
    Fold(Bit(y, a), Bit(z, a), Bit(y >> 1, a1), Bit(z >> 1, a1), Bit(y >> 2, a2), Bit(z >> 2, a2), Bit(y >> 3, a3), Bit(z >> 3, a3));
    XorRegroup(Xor(Xor(Xor(Bit(y, a), Bit(y >> 1, a1)), Bit(y >> 2, a2)), Bit(y >> 3, a3)),
               Xor(Xor(Xor(Bit(z, a), Bit(z >> 1, a1)), Bit(z >> 2, a2)), Bit(z >> 3, a3)), Bit(y >> 4, a4), Bit(z >> 4, a4));
  }

  lemma BitsOfDouble(y: bv8, a: Octet)
    requires y < 16
    ensures Bit(y << 1, a) == NULL && Bit(y >> 4, a) == NULL
    ensures (y << 1) >> 1 == y && (y << 1) >> 2 == y >> 1 && (y << 1) >> 3 == y >> 2 && (y << 1) >> 4 == y >> 3
  {}

  lemma MultiplyDouble(a: Octet, y: bv8)
    requires y < 16
    ensures Multiply(XTime(a), y) == Multiply(a, y << 1)
  {
    hide XTime, Bit, Xor;
    var a1 := XTime(a);
    var a4 := XTime(XTime(XTime(a1)));
    BitsOfDouble(y, a);
    BitsOfDouble(y, XTime(a4));
    XorLaws(Bit(y, a1), NULL);
    XorLaws(Xor(Xor(Xor(Bit(y, a1), Bit(y >> 1, XTime(a1))), Bit(y >> 2, XTime(XTime(a1)))), Bit(y >> 3, a4)), NULL);
  }

  lemma SmallMultiples(a: Octet)
    ensures Multiply(a, 0) == NULL && Multiply(a, 1) == a
  {
    hide XTime, Xor;
    XorLaws(a, NULL);
    XorLaws(NULL, NULL);
  }

  /** The columns that a single byte x is mixed into. */
  lemma MixedUnits(x: Octet)
    ensures MixColumn(Column(x, NULL, NULL, NULL)) == Column(XTime(x), x, x, Xor(XTime(x), x))
    ensures MixColumn(Column(NULL, x, NULL, NULL)) == Column(Xor(XTime(x), x), XTime(x), x, x)
    ensures MixColumn(Column(NULL, NULL, x, NULL)) == Column(x, Xor(XTime(x), x), XTime(x), x)
    ensures MixColumn(Column(NULL, NULL, NULL, x)) == Column(x, x, Xor(XTime(x), x), XTime(x))
  {
    hide XTime, Xor;
    XTimeNull();
    XorLaws(x, x);
    XorLaws(NULL, NULL);
    XorLaws(XTime(x), x);
    XorLaws(Xor(XTime(x), x), x);
  }

  lemma XTimeNull()
    ensures XTime(NULL) == NULL
  {}

  /** 14, 11, 13 and 9 times a byte, its double and its triple. */
  lemma Products(x: Octet)
    ensures Multiply(XTime(x), 0x0e) == Multiply(x, 28) && Multiply(Xor(XTime(x), x), 0x0e) == Multiply(x, 18)
    ensures Multiply(XTime(x), 0x0b) == Multiply(x, 22) && Multiply(Xor(XTime(x), x), 0x0b) == Multiply(x, 29)
    ensures Multiply(XTime(x), 0x0d) == Multiply(x, 26) && Multiply(Xor(XTime(x), x), 0x0d) == Multiply(x, 23)
    ensures Multiply(XTime(x), 0x09) == Multiply(x, 18) && Multiply(Xor(XTime(x), x), 0x09) == Multiply(x, 27)
  {
    hide Multiply, XTime, Xor;
    Product(x, 0x0e);
    Product(x, 0x0b);
    Product(x, 0x0d);
    Product(x, 0x09);
  }

  lemma Product(x: Octet, y: bv8)
    requires y < 16
    ensures Multiply(XTime(x), y) == Multiply(x, y << 1) && Multiply(Xor(XTime(x), x), y) == Multiply(x, (y << 1) ^ y)
  {
    hide Multiply, XTime, Xor;
    MultiplyDouble(x, y);
    MultiplyXor(XTime(x), x, y);
    MultiplySum(x, y << 1, y);
  }

  lemma Units(x: Octet)
    ensures Back(MixColumn(Column(x, NULL, NULL, NULL))) == x
    ensures Back(MixColumn(Column(NULL, x, NULL, NULL))) == NULL
    ensures Back(MixColumn(Column(NULL, NULL, x, NULL))) == NULL
    ensures Back(MixColumn(Column(NULL, NULL, NULL, x))) == NULL
  {
    hide Multiply, XTime, Xor, MixColumn;
    MixedUnits(x);
    Products(x);
    SmallMultiples(x);
    FourProducts(x, 28, 11, 13, 27);
    FourProducts(x, 18, 22, 13, 9);
    FourProducts(x, 14, 29, 26, 9);
    FourProducts(x, 14, 11, 23, 18);
  }

  lemma FourProducts(x: Octet, p: bv8, q: bv8, r: bv8, s: bv8)
    ensures Xor(Xor(Xor(Multiply(x, p), Multiply(x, q)), Multiply(x, r)), Multiply(x, s)) == Multiply(x, p ^ q ^ r ^ s)
  {
    hide Multiply, Xor;
    MultiplySum(x, p, q);
    MultiplySum(x, p ^ q, r);
    MultiplySum(x, p ^ q ^ r, s);
  }

  /** One column: the inverse matrix times the matrix is the identity. */
  lemma MixInverse(a: Octet, b: Octet, c: Octet, d: Octet)
    ensures InvMix(Mix(a, b, c, d), Mix(b, c, d, a), Mix(c, d, a, b), Mix(d, a, b, c)) == a
  {
    var pa, pb, pc, pd := Column(a, NULL, NULL, NULL), Column(NULL, b, NULL, NULL), Column(NULL, NULL, c, NULL), Column(NULL, NULL, NULL, d);
    calc {
      Back(MixColumn(Column(a, b, c, d)));
      { Split(a, b, c, d); }
      Back(MixColumn(Plus(Plus(Plus(pa, pb), pc), pd)));
      { hide Back, MixColumn, Plus, Xor;
        MixColumnPlus(Plus(Plus(pa, pb), pc), pd);
        MixColumnPlus(Plus(pa, pb), pc);
        MixColumnPlus(pa, pb);
        BackPlus(Plus(Plus(MixColumn(pa), MixColumn(pb)), MixColumn(pc)), MixColumn(pd));
        BackPlus(Plus(MixColumn(pa), MixColumn(pb)), MixColumn(pc));
        BackPlus(MixColumn(pa), MixColumn(pb)); }
      Xor(Xor(Xor(Back(MixColumn(pa)), Back(MixColumn(pb))), Back(MixColumn(pc))), Back(MixColumn(pd)));
      { hide Back, MixColumn, Xor;
        Units(a); Units(b); Units(c); Units(d);
        XorLaws(a, NULL); }
      a;
    }
  }

  lemma Split(a: Octet, b: Octet, c: Octet, d: Octet)
    ensures Column(a, b, c, d)
      == Plus(Plus(Plus(Column(a, NULL, NULL, NULL), Column(NULL, b, NULL, NULL)), Column(NULL, NULL, c, NULL)), Column(NULL, NULL, NULL, d))
  {
    hide Xor;
    XorLaws(a, NULL);
    XorLaws(b, NULL);
    XorLaws(c, NULL);
    XorLaws(d, NULL);
    XorLaws(NULL, NULL);
  }

  // ---- the shortcut of MixColumns: one byte from the sum of its column ----

  function Sum4(a: Octet, b: Octet, c: Octet, d: Octet): Octet { Xor(Xor(Xor(a, b), c), d) }

  lemma Sum4Turn(a: Octet, b: Octet, c: Octet, d: Octet)
    ensures Sum4(b, c, d, a) == Sum4(a, b, c, d)
  {}

  lemma Drop(a: Octet, b: Octet, c: Octet, d: Octet)
    ensures Xor(a, Sum4(a, b, c, d)) == Xor(Xor(b, c), d)
  {}

  lemma Assoc(a: Octet, b: Octet, c: Octet)
    ensures Xor(a, Xor(b, c)) == Xor(Xor(a, b), c) && Xor(a, Xor(b, c)) == Xor(b, Xor(a, c))
  {}

  /** A byte plus x times the sum with the byte below plus the column sum is the matrix entry. */
  lemma Shortcut(a: Octet, b: Octet, c: Octet, d: Octet)
    ensures Xor(a, Xor(XTime(Xor(a, b)), Sum4(a, b, c, d))) == Mix(a, b, c, d)
  {
    hide XTime, Xor, Sum4;
    XTimeXor(a, b);
    var s, t, u := XTime(a), XTime(b), Sum4(a, b, c, d);
    Assoc(a, Xor(s, t), u);
    Drop(a, b, c, d);
    Assoc(Xor(s, t), Xor(b, c), d);
    Assoc(Xor(s, t), b, c);
    Assoc(s, t, b);
  }
}
