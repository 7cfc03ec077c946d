/** The field GF(2^8) of the Reed-Solomon code: its operations, its laws, and the powers of alpha. */
module Gf256 {

  /** An element of GF(2^8), the residues modulo X^8 + X^4 + X^3 + X^2 + 1 (0x11D); bit i is the coefficient of X^i. */
  datatype Elt = Elt(v: bv8)

  const ZERO := Elt(0)
  const ONE := Elt(1)

  function Add(a: Elt, b: Elt): Elt { Elt(a.v ^ b.v) }

  /** Multiplication by X. */
  function Xtime(a: Elt): Elt { Elt((a.v << 1) ^ ((a.v >> 7) * 0x1D)) }

  function Shifted(a: Elt, i: nat): Elt {
    if i == 0 then a else Xtime(Shifted(a, i - 1))
  }

  function Mask(i: nat): bv8
    requires i < 8
  {
    match i
    case 0 => 0x01 case 1 => 0x02 case 2 => 0x04 case 3 => 0x08
    case 4 => 0x10 case 5 => 0x20 case 6 => 0x40 case 7 => 0x80
  }

  predicate Bit(b: Elt, i: nat)
    requires i < 8
  { b.v & Mask(i) != 0 }

  function Pick(c: bool, a: Elt): Elt { if c then a else ZERO }

  /** The sum of a*X^i over the set bits i < n of b. */
  function MulBits(a: Elt, b: Elt, n: nat): Elt
    requires n <= 8
  {
    if n == 0 then ZERO else Add(MulBits(a, b, n - 1), Pick(Bit(b, n - 1), Shifted(a, n - 1)))
  }

  function Mul(a: Elt, b: Elt): Elt { MulBits(a, b, 8) }

  // ---- addition

  lemma AddComm(a: Elt, b: Elt)
    ensures Add(a, b) == Add(b, a)
  {}

  lemma AddAssoc(a: Elt, b: Elt, c: Elt)
    ensures Add(Add(a, b), c) == Add(a, Add(b, c))
  {}

  lemma AddZero(a: Elt)
    ensures Add(a, ZERO) == a && Add(ZERO, a) == a && Add(a, a) == ZERO
  {}

  lemma AddCancel(a: Elt, b: Elt)
    ensures Add(Add(a, b), b) == a && Add(b, Add(b, a)) == a
    ensures Add(a, b) == ZERO <==> a == b
  {}

  lemma AddRegroup(a: Elt, b: Elt, c: Elt, d: Elt)
    ensures Add(Add(a, b), Add(c, d)) == Add(Add(a, c), Add(b, d))
  {}

  // ---- linearity of the product in each argument

  lemma XtimeAdd(a: Elt, b: Elt)
    ensures Xtime(Add(a, b)) == Add(Xtime(a), Xtime(b))
  {}

  lemma {:induction false} ShiftedAdd(a: Elt, b: Elt, i: nat)
    ensures Shifted(Add(a, b), i) == Add(Shifted(a, i), Shifted(b, i))
  {
    hide Xtime, Add;
    if i > 0 {
      ShiftedAdd(a, b, i - 1);
      XtimeAdd(Shifted(a, i - 1), Shifted(b, i - 1));
    }
  }

  lemma BitAdd(b: Elt, c: Elt, i: nat)
    requires i < 8
    ensures Bit(Add(b, c), i) == (Bit(b, i) != Bit(c, i))
  {
    var m := Mask(i);
    assert (b.v ^ c.v) & m == (b.v & m) ^ (c.v & m);
    assert b.v & m == 0 || b.v & m == m;
    assert c.v & m == 0 || c.v & m == m;
  }

  lemma PickAdd(c: bool, d: bool, a: Elt, b: Elt)
    ensures Pick(c, Add(a, b)) == Add(Pick(c, a), Pick(c, b))
    ensures Pick(c != d, a) == Add(Pick(c, a), Pick(d, a))
  {
    hide Add;
    AddZero(a);
    AddZero(ZERO);
  }

  lemma {:induction false} MulBitsAddRight(a: Elt, b: Elt, c: Elt, n: nat)
    requires n <= 8
    ensures MulBits(a, Add(b, c), n) == Add(MulBits(a, b, n), MulBits(a, c, n))
  {
    hide Pick, Shifted, Add, Bit, Mask;
    if n == 0 {
      AddZero(ZERO);
    } else {
      var s := Shifted(a, n - 1);
      MulBitsAddRight(a, b, c, n - 1);
      BitAdd(b, c, n - 1);
      PickAdd(Bit(b, n - 1), Bit(c, n - 1), s, s);
      AddRegroup(MulBits(a, b, n - 1), MulBits(a, c, n - 1), Pick(Bit(b, n - 1), s), Pick(Bit(c, n - 1), s));
    }
  }

  lemma {:induction false} MulBitsAddLeft(a: Elt, b: Elt, c: Elt, n: nat)
    requires n <= 8
    ensures MulBits(Add(a, b), c, n) == Add(MulBits(a, c, n), MulBits(b, c, n))
  {
    hide Pick, Shifted, Add, Bit, Mask;
    if n == 0 {
      AddZero(ZERO);
    } else {
      var bit := Bit(c, n - 1);
      var s, t := Shifted(a, n - 1), Shifted(b, n - 1);
      MulBitsAddLeft(a, b, c, n - 1);
      ShiftedAdd(a, b, n - 1);
      PickAdd(bit, bit, s, t);
      AddRegroup(MulBits(a, c, n - 1), MulBits(b, c, n - 1), Pick(bit, s), Pick(bit, t));
    }
  }

  lemma MulAdd(a: Elt, b: Elt, c: Elt)
    ensures Mul(a, Add(b, c)) == Add(Mul(a, b), Mul(a, c))
    ensures Mul(Add(a, b), c) == Add(Mul(a, c), Mul(b, c))
  {
    hide MulBits, Add;
    MulBitsAddRight(a, b, c, 8);
    MulBitsAddLeft(a, b, c, 8);
  }

  // ---- the product is commutative and associative

  lemma {:induction false} ShiftedXtime(a: Elt, i: nat)
    ensures Shifted(Xtime(a), i) == Xtime(Shifted(a, i))
  {
    hide Xtime;
    if i > 0 {
      ShiftedXtime(a, i - 1);
    }
  }

  lemma PickXtime(c: bool, a: Elt)
    ensures Pick(c, Xtime(a)) == Xtime(Pick(c, a))
  {}

  lemma {:induction false} MulBitsXtime(a: Elt, b: Elt, n: nat)
    requires n <= 8
    ensures MulBits(Xtime(a), b, n) == Xtime(MulBits(a, b, n))
  {
    hide Xtime, Add, Shifted, Pick, Bit, Mask;
    if n == 0 {
      PickXtime(false, a);
      assert Pick(false, Xtime(a)) == ZERO by { PickFalse(Xtime(a)); }
      PickFalse(a);
    } else {
      MulBitsXtime(a, b, n - 1);
      ShiftedXtime(a, n - 1);
      PickXtime(Bit(b, n - 1), Shifted(a, n - 1));
      XtimeAdd(MulBits(a, b, n - 1), Pick(Bit(b, n - 1), Shifted(a, n - 1)));
    }
  }

  lemma PickFalse(a: Elt)
    ensures Pick(false, a) == ZERO
  {}

  lemma {:induction false} MulShifted(a: Elt, b: Elt, i: nat)
    ensures Mul(Shifted(a, i), b) == Shifted(Mul(a, b), i)
  {
    hide Xtime, MulBits;
    if i > 0 {
      MulShifted(a, b, i - 1);
      MulBitsXtime(Shifted(a, i - 1), b, 8);
    }
  }

  lemma ShiftedOne(i: nat)
    requires i < 8
    ensures Shifted(ONE, i) == Elt(Mask(i))
  {
    if i > 0 { ShiftedOne(i - 1); }
  }

  lemma OneMulBits(b: Elt, n: nat, low: bv8)
    requires 1 <= n <= 8
    requires low == Mask(n - 1) - 1
    requires MulBits(ONE, b, n - 1) == Elt(b.v & low)
    ensures MulBits(ONE, b, n) == Elt(b.v & (low | Mask(n - 1)))
  {
    ShiftedOne(n - 1);
    var m := Mask(n - 1);
    assert b.v & m == 0 || b.v & m == m;
  }

  /** Every element is the sum of its own powers of X. */
  lemma OneMul(b: Elt)
    ensures Mul(ONE, b) == b
  {
    OneMulBits(b, 1, 0x00); OneMulBits(b, 2, 0x01); OneMulBits(b, 3, 0x03); OneMulBits(b, 4, 0x07);
    OneMulBits(b, 5, 0x0F); OneMulBits(b, 6, 0x1F); OneMulBits(b, 7, 0x3F); OneMulBits(b, 8, 0x7F);
    assert b.v & 0xFF == b.v;
  }

  lemma {:induction false} MulBitsSwap(a: Elt, b: Elt, n: nat)
    requires n <= 8
    ensures Mul(MulBits(ONE, b, n), a) == MulBits(a, b, n)
  {
    hide Mul, Add, Shifted, Pick, Bit, Mask;
    if n == 0 {
      ZeroMul(a);
    } else {
      var s := Shifted(ONE, n - 1);
      MulBitsSwap(a, b, n - 1);
      MulAdd(MulBits(ONE, b, n - 1), Pick(Bit(b, n - 1), s), a);
      MulAdd(MulBits(ONE, b, n - 1), a, a);
      MulAddLeft(MulBits(ONE, b, n - 1), Pick(Bit(b, n - 1), s), a);
      MulPick(Bit(b, n - 1), s, a);
      MulShifted(ONE, a, n - 1);
      OneMul(a);
    }
  }

  lemma MulAddLeft(a: Elt, b: Elt, c: Elt)
    ensures Mul(Add(a, b), c) == Add(Mul(a, c), Mul(b, c))
  { MulAdd(a, b, c); }

  lemma {:induction false} ZeroMulBits(a: Elt, n: nat)
    requires n <= 8
    ensures MulBits(ZERO, a, n) == ZERO
  {
    if n > 0 {
      ZeroMulBits(a, n - 1);
      ShiftedZero(n - 1);
    }
  }

  lemma {:induction false} ShiftedZero(n: nat)
    ensures Shifted(ZERO, n) == ZERO
  {
    if n > 0 { ShiftedZero(n - 1); }
  }

  lemma ZeroMul(a: Elt)
    ensures Mul(ZERO, a) == ZERO
  { ZeroMulBits(a, 8); }

  lemma MulPick(c: bool, s: Elt, a: Elt)
    ensures Mul(Pick(c, s), a) == Pick(c, Mul(s, a))
  {
    hide MulBits;
    ZeroMul(a);
  }

  lemma MulComm(a: Elt, b: Elt)
    ensures Mul(a, b) == Mul(b, a)
  {
    hide MulBits;
    MulBitsSwap(a, b, 8);
    OneMul(b);
  }

  lemma {:induction false} MulBitsAssoc(a: Elt, b: Elt, c: Elt, n: nat)
    requires n <= 8
    ensures MulBits(Mul(a, b), c, n) == Mul(a, MulBits(b, c, n))
  {
    hide Mul, Add, Shifted, Pick, Bit, Mask;
    if n == 0 {
      ZeroMul(a);
      MulComm(ZERO, a);
    } else {
      var bit, s := Bit(c, n - 1), Shifted(b, n - 1);
      MulBitsAssoc(a, b, c, n - 1);
      MulAdd(a, MulBits(b, c, n - 1), Pick(bit, s));
      MulComm(a, Pick(bit, s));
      MulPick(bit, s, a);
      MulShifted(b, a, n - 1);
      MulComm(a, b);
    }
  }

  lemma MulAssoc(a: Elt, b: Elt, c: Elt)
    ensures Mul(Mul(a, b), c) == Mul(a, Mul(b, c))
  {
    hide MulBits;
    MulBitsAssoc(a, b, c, 8);
  }

  lemma MulOne(a: Elt)
    ensures Mul(a, ONE) == a && Mul(ONE, a) == a
    ensures Mul(a, ZERO) == ZERO && Mul(ZERO, a) == ZERO
  {
    hide Mul;
    OneMul(a);
    ZeroMul(a);
    MulComm(a, ONE);
    MulComm(a, ZERO);
  }

  // ---- the product written out, for computing with constants

  function Double(a: bv8): bv8 { (a << 1) ^ ((a >> 7) * 0x1D) }

  function AddIf(r: bv8, b: bv8, m: bv8, s: bv8): bv8 { r ^ (if b & m != 0 then s else 0) }

  function FlatMul(a: bv8, b: bv8): bv8 {
    var a1 := Double(a);
    var a2 := Double(a1);
    var a3 := Double(a2);
    var a4 := Double(a3);
    var a5 := Double(a4);
    var a6 := Double(a5);
    var a7 := Double(a6);
    var low := AddIf(AddIf(AddIf(AddIf(0, b, 0x01, a), b, 0x02, a1), b, 0x04, a2), b, 0x08, a3);
    AddIf(AddIf(AddIf(AddIf(low, b, 0x10, a4), b, 0x20, a5), b, 0x40, a6), b, 0x80, a7)
  }

  lemma FlatStep(a: Elt, b: Elt, n: nat)
    requires n < 8
    ensures MulBits(a, b, n + 1) == Elt(AddIf(MulBits(a, b, n).v, b.v, Mask(n), Shifted(a, n).v))
    ensures Shifted(a, n + 1) == Elt(Double(Shifted(a, n).v))
  {
    hide Mask, Shifted, Add, Pick, Bit, AddIf, Xtime, Double;
    var r, s := MulBits(a, b, n), Shifted(a, n);
    assert MulBits(a, b, n + 1) == Add(r, Pick(Bit(b, n), s));
    AddPicked(r, b, n, s);
    ShiftedNext(a, n);
    XtimeDouble(s);
  }

  lemma AddPicked(r: Elt, b: Elt, n: nat, s: Elt)
    requires n < 8
    ensures Add(r, Pick(Bit(b, n), s)) == Elt(AddIf(r.v, b.v, Mask(n), s.v))
  {
    hide Mask;
  }

  lemma XtimeDouble(s: Elt)
    ensures Xtime(s) == Elt(Double(s.v))
  {}

  lemma ShiftedNext(a: Elt, n: nat)
    ensures Shifted(a, n + 1) == Xtime(Shifted(a, n))
  {}

  lemma FlatMulCorrect(a: Elt, b: Elt)
    ensures Mul(a, b) == Elt(FlatMul(a.v, b.v))
  {
    hide Double, AddIf, MulBits, Shifted;
    assert Shifted(a, 0) == a && MulBits(a, b, 0) == ZERO by { MulBitsBase(a, b); }
    FlatStep(a, b, 0); FlatStep(a, b, 1); FlatStep(a, b, 2); FlatStep(a, b, 3);
    FlatStep(a, b, 4); FlatStep(a, b, 5); FlatStep(a, b, 6); FlatStep(a, b, 7);
  }

  lemma MulBitsBase(a: Elt, b: Elt)
    ensures Shifted(a, 0) == a && MulBits(a, b, 0) == ZERO
  {}

  // ---- the primitive element alpha = X

  /** The power alpha^i. */
  function Alpha(i: nat): Elt { Shifted(ONE, i) }

  lemma AlphaAdd(i: nat, j: nat)
    ensures Alpha(i + j) == Mul(Alpha(i), Alpha(j))
  {
    hide Mul, Xtime;
    MulShifted(ONE, Alpha(j), i);
    OneMul(Alpha(j));
    ShiftedTwice(ONE, j, i);
  }

  lemma {:induction false} ShiftedTwice(a: Elt, i: nat, j: nat)
    ensures Shifted(Shifted(a, i), j) == Shifted(a, i + j)
  {
    hide Xtime;
    if j > 0 { ShiftedTwice(a, i, j - 1); }
  }

  lemma AlphaValues()
    ensures Alpha(15) != ONE && Alpha(51) != ONE && Alpha(85) != ONE && Alpha(255) == ONE
  {
    hide Mul, Shifted;
    assert Alpha(1) == Elt(2) by { ShiftedOne(1); }
    assert Alpha(5) == Elt(32) by { ShiftedOne(5); }
    assert Alpha(10) == Elt(116) by { AlphaAdd(5, 5); MulValues(); }
    assert Alpha(15) == Elt(38) by { AlphaAdd(5, 10); MulValues(); }
    assert Alpha(16) == Elt(76) by { AlphaAdd(1, 15); MulValues(); }
    assert Alpha(17) == Elt(152) by { AlphaAdd(1, 16); MulValues(); }
    assert Alpha(34) == Elt(78) by { AlphaAdd(17, 17); MulValues(); }
    assert Alpha(51) == Elt(10) by { AlphaAdd(17, 34); MulValues(); }
    assert Alpha(85) == Elt(214) by { AlphaAdd(34, 51); MulValues(); }
    assert Alpha(170) == Elt(215) by { AlphaAdd(85, 85); MulValues(); }
    assert Alpha(255) == ONE by { AlphaAdd(85, 170); MulValues(); }
  }

  lemma MulValues()
    ensures Mul(Elt(32), Elt(32)) == Elt(116) && Mul(Elt(32), Elt(116)) == Elt(38)
    ensures Mul(Elt(2), Elt(38)) == Elt(76) && Mul(Elt(2), Elt(76)) == Elt(152)
    ensures Mul(Elt(152), Elt(152)) == Elt(78) && Mul(Elt(152), Elt(78)) == Elt(10)
    ensures Mul(Elt(78), Elt(10)) == Elt(214) && Mul(Elt(214), Elt(214)) == Elt(215)
    ensures Mul(Elt(214), Elt(215)) == ONE
  {
    hide Mul;
    FlatMulCorrect(Elt(32), Elt(32)); FlatMulCorrect(Elt(32), Elt(116)); FlatMulCorrect(Elt(2), Elt(38));
    FlatMulCorrect(Elt(2), Elt(76)); FlatMulCorrect(Elt(152), Elt(152)); FlatMulCorrect(Elt(152), Elt(78));
    FlatMulCorrect(Elt(78), Elt(10)); FlatMulCorrect(Elt(214), Elt(214)); FlatMulCorrect(Elt(214), Elt(215));
  }

  lemma {:induction false} AlphaMultiple(k: nat, m: nat)
    requires Alpha(k) == ONE
    ensures Alpha(k * m) == ONE
  {
    hide Mul, Shifted;
    if m == 0 {
      assert Alpha(0) == ONE by { ShiftedOne(0); }
    } else {
      AlphaMultiple(k, m - 1);
      assert k * m == k * (m - 1) + k;
      AlphaAdd(k * (m - 1), k);
      MulOne(ONE);
    }
  }

  lemma AlphaMod(k: nat, n: nat)
    requires k > 0 && Alpha(k) == ONE
    ensures Alpha(n) == Alpha(n % k)
  {
    hide Mul, Shifted;
    AlphaMultiple(k, n / k);
    AlphaAdd(k * (n / k), n % k);
    MulOne(Alpha(n % k));
  }

  lemma {:induction false} AlphaPeriod(k: nat) returns (d: nat)
    requires 0 < k && Alpha(k) == ONE
    ensures 0 < d <= k && Alpha(d) == ONE && 255 % d == 0
    decreases k
  {
    hide Mul, Shifted;
    AlphaValues();
    if 255 % k == 0 {
      d := k;
    } else {
      AlphaMod(k, 255);
      d := AlphaPeriod(255 % k);
    }
  }

  lemma ProperDivisors(d: nat)
    requires 0 < d < 255 && 255 % d == 0
    ensures 15 % d == 0 || 51 % d == 0 || 85 % d == 0
  {
    var q := 255 / d;
    assert d * q == 255;
    if d > 15 {
      assert q < 16 by { assert q >= 16 ==> d * q >= 16 * q; }
      assert q in {2, 3, 4, 5, 6, 7, 8, 9, 10, 11, 12, 13, 14, 15};
    } else {
      assert d in {1, 2, 3, 4, 5, 6, 7, 8, 9, 10, 11, 12, 13, 14, 15};
    }
  }

  /** Alpha generates the whole multiplicative group: its order is exactly 255. */
  lemma AlphaOrder(k: nat)
    ensures Alpha(k) == ONE <==> k % 255 == 0
  {
    hide Mul, Shifted;
    AlphaValues();
    AlphaMod(255, k);
    var r := k % 255;
    if r == 0 {
      assert Alpha(0) == ONE by { ShiftedOne(0); }
    } else if Alpha(r) == ONE {
      ShiftedOne(0);
      var d := AlphaPeriod(r);
      ProperDivisors(d);
      AlphaMod(d, 15);
      AlphaMod(d, 51);
      AlphaMod(d, 85);
    }
  }

  lemma AlphaInverse(i: nat)
    requires i <= 255
    ensures Mul(Alpha(i), Alpha(255 - i)) == ONE
  {
    hide Mul, Shifted;
    AlphaAdd(i, 255 - i);
    AlphaValues();
  }

  lemma AlphaInjective(i: nat, j: nat)
    requires i < 255 && j < 255 && Alpha(i) == Alpha(j)
    ensures i == j
  {
    hide Mul, Shifted;
    AlphaInverse(j);
    AlphaAdd(i, 255 - j);
    AlphaOrder(i + 255 - j);
  }

  lemma AlphaNonzero(i: nat)
    ensures Alpha(i) != ZERO
  {
    hide Mul, Shifted;
    AlphaValues();
    AlphaMod(255, i);
    AlphaInverse(i % 255);
    MulOne(Alpha(255 - i % 255));
  }

  // ---- every nonzero element is a power of alpha (counting)

  ghost function AlphaPowers(n: nat): (s: set<Elt>)
    requires n <= 255
    ensures forall a :: a in s <==> exists i :: 0 <= i < n && Alpha(i) == a
  {
    set i | 0 <= i < n :: Alpha(i)
  }

  lemma {:induction false} AlphaPowersSize(n: nat)
    requires n <= 255
    ensures |AlphaPowers(n)| == n
  {
    hide Shifted;
    if n > 0 {
      AlphaPowersSize(n - 1);
      if Alpha(n - 1) in AlphaPowers(n - 1) {
        var i :| 0 <= i < n - 1 && Alpha(i) == Alpha(n - 1);
        AlphaInjective(i, n - 1);
      }
      assert AlphaPowers(n) == AlphaPowers(n - 1) + {Alpha(n - 1)};
    }
  }

  function Index(a: Elt): nat { a.v as nat }

  lemma IndexInjective(a: Elt, b: Elt)
    ensures Index(a) == Index(b) ==> a == b
    ensures Index(a) < 256
  {}

  lemma {:induction false} AtMost(s: set<Elt>, n: nat)
    requires forall a :: a in s ==> Index(a) < n
    ensures |s| <= n
  {
    hide Index;
    if n == 0 {
      assert s == {};
    } else {
      var t := set a | a in s && Index(a) < n - 1;
      AtMost(t, n - 1);
      if c :| c in s && c !in t {
        forall a | a in s ensures a in t + {c} { IndexInjective(a, c); }
        assert s == t + {c};
      } else {
        assert s == t;
      }
    }
  }

  lemma Logarithm(a: Elt) returns (i: nat)
    requires a != ZERO
    ensures i < 255 && Alpha(i) == a
  {
    hide Shifted, Index;
    i := 0;
    var p := AlphaPowers(255);
    if a in p {
      i :| 0 <= i < 255 && Alpha(i) == a;
    } else {
      AlphaPowersSize(255);
      if ZERO in p {
        var j :| 0 <= j < 255 && Alpha(j) == ZERO;
        AlphaNonzero(j);
      }
      var all := p + {ZERO} + {a};
      assert |all| == 257;
      forall e | e in all ensures Index(e) < 256 { IndexInjective(e, e); }
      AtMost(all, 256);
    }
  }
}
