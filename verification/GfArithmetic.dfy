/** gf.c: carry-less multiplication, reduction, squaring and inversion compute the field operations. */
module GfArithmetic {
  import opened Gf256

  // ---- inversion by the addition chain 1 2 3 4 7 11 15 30 60 120 127 254

  function Square(a: Elt): Elt { Mul(a, a) }

  function Inverse(a: Elt): Elt {
    var a2 := Square(a);
    var a3 := Mul(a2, a);
    var a4 := Square(a2);
    var a7 := Mul(a4, a3);
    var a11 := Mul(a4, a7);
    var a15 := Mul(a11, a4);
    var a120 := Square(Square(Square(a15)));
    var a127 := Mul(a120, a7);
    Square(a127)
  }

  lemma AlphaProduct(k: nat, i: nat, j: nat)
    ensures Mul(Alpha(k * i), Alpha(k * j)) == Alpha(k * (i + j))
  {
    hide Mul, Alpha;
    assert k * i + k * j == k * (i + j);
    AlphaAdd(k * i, k * j);
  }

  /** The chain raises a power of alpha to the exponent 254, the inverse in a group of order 255. */
  lemma AlphaInverseChain(k: nat)
    ensures Inverse(Alpha(k)) == Alpha(k * 254)
  {
    hide Mul, Alpha;
    assert k * 1 == k;
    AlphaProduct(k, 1, 1);
    AlphaProduct(k, 2, 1);
    AlphaProduct(k, 2, 2);
    AlphaProduct(k, 4, 3);
    AlphaProduct(k, 4, 7);
    AlphaProduct(k, 11, 4);
    AlphaProduct(k, 15, 15);
    AlphaProduct(k, 30, 30);
    AlphaProduct(k, 60, 60);
    AlphaProduct(k, 120, 7);
    AlphaProduct(k, 127, 127);
  }

  /** Every nonzero element times its computed inverse is one; the inverse of zero is computed as zero. */
  lemma InverseCorrect(a: Elt)
    ensures a != ZERO ==> Mul(a, Inverse(a)) == ONE
    ensures Inverse(ZERO) == ZERO
  {
    hide Mul, Alpha;
    MulOne(ZERO);
    if a != ZERO {
      var k := Logarithm(a);
      AlphaInverseChain(k);
      assert k * 1 == k;
      AlphaProduct(k, 1, 254);
      AlphaOrder(k * 255);
    }
  }

  /** GF(2^8) has no zero divisors. */
  lemma MulNonzero(a: Elt, b: Elt)
    ensures Mul(a, b) == ZERO <==> a == ZERO || b == ZERO
  {
    hide Mul, Inverse;
    MulOne(a);
    MulOne(b);
    if a != ZERO && Mul(a, b) == ZERO {
      InverseCorrect(a);
      MulComm(a, Inverse(a));
      MulAssoc(Inverse(a), a, b);
      MulOne(Inverse(a));
    }
  }

  lemma MulCancel(c: Elt, a: Elt, b: Elt)
    requires c != ZERO && Mul(c, a) == Mul(c, b)
    ensures a == b
  {
    hide Mul, Add;
    MulAdd(c, a, b);
    AddCancel(Mul(c, a), Mul(c, b));
    AddCancel(a, b);
    MulNonzero(c, Add(a, b));
  }

  // ---- gf_carryless_mul: windows of two bits of a against the low seven bits of b

  /** A 16-bit word; products of bytes before reduction. */
  datatype Wide = Wide(v: bv16)

  function Xor(a: Wide, b: Wide): Wide { Wide(a.v ^ b.v) }

  function Low(a: Wide): Wide { Wide(a.v & 0xFF) }

  function High(a: Wide): Wide { Wide(a.v >> 8) }

  function Shl(a: Wide, k: nat): Wide
    requires k < 8
  {
    match k
    case 0 => a case 1 => Wide(a.v << 1) case 2 => Wide(a.v << 2) case 3 => Wide(a.v << 3)
    case 4 => Wide(a.v << 4) case 5 => Wide(a.v << 5) case 6 => Wide(a.v << 6) case 7 => Wide(a.v << 7)
  }

  function Widen(a: Elt): Wide { Wide(a.v as bv16) }

  function PickWide(c: bool, a: Wide): Wide { if c then a else Wide(0) }

  /** The sum of b*X^i over the set bits i < n of a, not reduced. */
  function Carryless(b: Elt, a: Elt, n: nat): Wide
    requires n <= 8
  {
    if n == 0 then Wide(0) else Xor(Carryless(b, a, n - 1), PickWide(Bit(a, n - 1), Shl(Widen(b), n - 1)))
  }

  lemma XorAssoc(a: Wide, b: Wide, c: Wide)
    ensures Xor(Xor(a, b), c) == Xor(a, Xor(b, c))
  {}

  lemma XorComm(a: Wide, b: Wide)
    ensures Xor(a, b) == Xor(b, a)
  {}

  lemma XorRegroup(a: Wide, b: Wide, c: Wide, d: Wide)
    ensures Xor(Xor(a, b), Xor(c, d)) == Xor(Xor(a, c), Xor(b, d))
  {
    hide Xor;
    XorAssoc(a, b, Xor(c, d));
    XorAssoc(b, c, d);
    XorComm(b, c);
    XorAssoc(c, b, d);
    XorAssoc(a, c, Xor(b, d));
  }

  function Window(t: bv8, u: Wide): Wide {
    if t == 0 then Wide(0) else if t == 1 then u else if t == 2 then Shl(u, 1) else Xor(Shl(u, 1), u)
  }

  lemma WindowBits(b: Elt, a: Elt, n: nat)
    requires n in {0, 2, 4, 6}
    ensures Shl(Window((a.v >> n) & 3, Widen(b)), n)
         == Xor(PickWide(Bit(a, n), Shl(Widen(b), n)), PickWide(Bit(a, n + 1), Shl(Widen(b), n + 1)))
  {
    var t := (a.v >> n) & 3;
    assert t == 0 || t == 1 || t == 2 || t == 3;
    if n == 0 {} else if n == 2 {} else if n == 4 {} else {}
  }

  lemma CarrylessWindow(b: Elt, a: Elt, n: nat)
    requires n in {0, 2, 4, 6}
    ensures Carryless(b, a, n + 2) == Xor(Carryless(b, a, n), Shl(Window((a.v >> n) & 3, Widen(b)), n))
  {
    hide Xor, PickWide, Bit, Shl, Window, Widen;
    WindowBits(b, a, n);
    XorAssoc(Carryless(b, a, n), PickWide(Bit(a, n), Shl(Widen(b), n)), PickWide(Bit(a, n + 1), Shl(Widen(b), n + 1)));
  }

  /** The two bytes c[0], c[1] written by the source, as one word. */
  function Packed(l: bv16, h: bv16): Wide { Wide(((h & 0xFF) << 8) | (l & 0xFF)) }

  lemma PackedXor(l: bv16, h: bv16, g: bv16, i: nat)
    requires i in {2, 4, 6} && g < 0x200
    ensures Packed(l ^ (g << i), h ^ (g >> (8 - i))) == Xor(Packed(l, h), Shl(Wide(g), i))
  {
    if i == 2 {} else if i == 4 {} else {}
  }

  /** Bit 7 of b, left out of the window table, contributes a*X^7. */
  lemma {:induction false} CarrylessTop(b: Elt, a: Elt, n: nat)
    requires n <= 8
    ensures Carryless(b, a, n)
         == Xor(Carryless(Elt(b.v & 0x7F), a, n), PickWide(Bit(b, 7), Carryless(Elt(0x80), a, n)))
  {
    if n == 0 {
      assert PickWide(Bit(b, 7), Wide(0)) == Wide(0);
    } else {
      CarrylessTop(b, a, n - 1);
      CarrylessTopStep(b, a, n, Carryless(Elt(b.v & 0x7F), a, n - 1), Carryless(Elt(0x80), a, n - 1));
    }
  }

  lemma CarrylessTopStep(b: Elt, a: Elt, n: nat, c: Wide, d: Wide)
    requires 0 < n <= 8
    ensures Xor(Xor(c, PickWide(Bit(b, 7), d)), PickWide(Bit(a, n - 1), Shl(Widen(b), n - 1)))
         == Xor(Xor(c, PickWide(Bit(a, n - 1), Shl(Widen(Elt(b.v & 0x7F)), n - 1))),
                PickWide(Bit(b, 7), Xor(d, PickWide(Bit(a, n - 1), Shl(Widen(Elt(0x80)), n - 1)))))
  {
    var bit, top := Bit(a, n - 1), Bit(b, 7);
    var low, high := Shl(Widen(Elt(b.v & 0x7F)), n - 1), Shl(Widen(Elt(0x80)), n - 1);
    ShlSplit(b, n - 1);
    XorRegroup(c, PickWide(bit, low), PickWide(top, d), PickWide(top && bit, high));
    hide Xor, Shl, Widen, Bit;
    XorZero(d);
    XorZero(Wide(0));
    assert PickWide(top, Xor(d, PickWide(bit, high))) == Xor(PickWide(top, d), PickWide(top && bit, high));
    XorZero(low);
    assert PickWide(bit, Shl(Widen(b), n - 1)) == Xor(PickWide(bit, low), PickWide(top && bit, high));
  }

  lemma XorZero(a: Wide)
    ensures Xor(a, Wide(0)) == a && Xor(Wide(0), a) == a
  {}

  lemma ShlXor0(a: Wide, b: Wide)
    ensures Shl(Xor(a, b), 0) == Xor(Shl(a, 0), Shl(b, 0))
  {}

  lemma ShlXor1(a: Wide, b: Wide)
    ensures Shl(Xor(a, b), 1) == Xor(Shl(a, 1), Shl(b, 1))
  {}

  lemma ShlXor2(a: Wide, b: Wide)
    ensures Shl(Xor(a, b), 2) == Xor(Shl(a, 2), Shl(b, 2))
  {}

  lemma ShlXor3(a: Wide, b: Wide)
    ensures Shl(Xor(a, b), 3) == Xor(Shl(a, 3), Shl(b, 3))
  {}

  lemma ShlXor4(a: Wide, b: Wide)
    ensures Shl(Xor(a, b), 4) == Xor(Shl(a, 4), Shl(b, 4))
  {}

  lemma ShlXor5(a: Wide, b: Wide)
    ensures Shl(Xor(a, b), 5) == Xor(Shl(a, 5), Shl(b, 5))
  {}

  lemma ShlXor6(a: Wide, b: Wide)
    ensures Shl(Xor(a, b), 6) == Xor(Shl(a, 6), Shl(b, 6))
  {}

  lemma ShlXor7(a: Wide, b: Wide)
    ensures Shl(Xor(a, b), 7) == Xor(Shl(a, 7), Shl(b, 7))
  {}

  lemma ShlXor(a: Wide, b: Wide, k: nat)
    requires k < 8
    ensures Shl(Xor(a, b), k) == Xor(Shl(a, k), Shl(b, k))
  {
    hide Xor, Shl;
    if k == 0 { ShlXor0(a, b); } else if k == 1 { ShlXor1(a, b); } else if k == 2 { ShlXor2(a, b); }
    else if k == 3 { ShlXor3(a, b); } else if k == 4 { ShlXor4(a, b); } else if k == 5 { ShlXor5(a, b); }
    else if k == 6 { ShlXor6(a, b); } else { ShlXor7(a, b); }
  }

  lemma WidenSplit(b: Elt)
    ensures Widen(b) == Xor(Widen(Elt(b.v & 0x7F)), PickWide(Bit(b, 7), Widen(Elt(0x80))))
  {
    assert b.v & 0x80 == 0 || b.v & 0x80 == 0x80;
  }

  lemma ShlZero(k: nat)
    requires k < 8
    ensures Shl(Wide(0), k) == Wide(0)
  {}

  lemma ShlSplit(b: Elt, k: nat)
    requires k < 8
    ensures Shl(Widen(b), k)
         == Xor(Shl(Widen(Elt(b.v & 0x7F)), k), PickWide(Bit(b, 7), Shl(Widen(Elt(0x80)), k)))
  {
    hide Xor, Shl, Widen, Bit;
    WidenSplit(b);
    ShlXor(Widen(Elt(b.v & 0x7F)), PickWide(Bit(b, 7), Widen(Elt(0x80))), k);
    ShlZero(k);
  }

  // ---- gf_reduce: folding by X^8 = X^4 + X^3 + X^2 + 1

  function Fold(x: Wide): Wide {
    var m := High(x);
    Xor(Xor(Xor(Xor(Low(x), m), Shl(m, 2)), Shl(m, 3)), Shl(m, 4))
  }

  lemma LowXor(a: Wide, b: Wide)
    ensures Low(Xor(a, b)) == Xor(Low(a), Low(b))
  {}

  lemma HighXor(a: Wide, b: Wide)
    ensures High(Xor(a, b)) == Xor(High(a), High(b))
  {}

  lemma LowHighXor(a: Wide, b: Wide)
    ensures Low(Xor(a, b)) == Xor(Low(a), Low(b)) && High(Xor(a, b)) == Xor(High(a), High(b))
  {
    hide Low, High, Xor;
    LowXor(a, b);
    HighXor(a, b);
  }

  lemma FoldXor(x: Wide, y: Wide)
    ensures Fold(Xor(x, y)) == Xor(Fold(x), Fold(y))
  {
    hide Xor, Low, High, Shl;
    LowHighXor(x, y);
    var m, n := High(x), High(y);
    ShlXor(m, n, 2); ShlXor(m, n, 3); ShlXor(m, n, 4);
    var x1, y1 := Xor(Low(x), m), Xor(Low(y), n);
    var x2, y2 := Xor(x1, Shl(m, 2)), Xor(y1, Shl(n, 2));
    var x3, y3 := Xor(x2, Shl(m, 3)), Xor(y2, Shl(n, 3));
    XorRegroup(Low(x), Low(y), m, n);
    XorRegroup(x1, y1, Shl(m, 2), Shl(n, 2));
    XorRegroup(x2, y2, Shl(m, 3), Shl(n, 3));
    XorRegroup(x3, y3, Shl(m, 4), Shl(n, 4));
  }

  lemma FoldShift0(b: bv8)
    ensures Fold(Fold(Shl(Widen(Elt(b)), 0))) == Widen(Elt(b))
  {}

  lemma FoldShift1(b: bv8)
    ensures Fold(Fold(Shl(Widen(Elt(b)), 1))) == Widen(Xtime(Elt(b)))
  {}

  lemma FoldShift2(b: bv8)
    ensures Fold(Fold(Shl(Widen(Elt(b)), 2))) == Widen(Xtime(Xtime(Elt(b))))
  {}

  lemma FoldShift3(b: bv8)
    ensures Fold(Fold(Shl(Widen(Elt(b)), 3))) == Widen(Xtime(Xtime(Xtime(Elt(b)))))
  {}

  lemma FoldShift4(b: bv8)
    ensures Fold(Fold(Shl(Widen(Elt(b)), 4))) == Widen(Xtime(Xtime(Xtime(Xtime(Elt(b))))))
  {}

  lemma FoldShift5(b: bv8)
    ensures Fold(Fold(Shl(Widen(Elt(b)), 5))) == Widen(Xtime(Xtime(Xtime(Xtime(Xtime(Elt(b)))))))
  {}

  lemma FoldShift6(b: bv8)
    ensures Fold(Fold(Shl(Widen(Elt(b)), 6))) == Widen(Xtime(Xtime(Xtime(Xtime(Xtime(Xtime(Elt(b))))))))
  {}

  lemma FoldShift7(b: bv8)
    ensures Fold(Fold(Shl(Widen(Elt(b)), 7))) == Widen(Xtime(Xtime(Xtime(Xtime(Xtime(Xtime(Xtime(Elt(b)))))))))
  {}

  lemma ShiftedUnroll(b: Elt)
    ensures Shifted(b, 2) == Xtime(Xtime(b)) && Shifted(b, 3) == Xtime(Xtime(Xtime(b)))
    ensures Shifted(b, 4) == Xtime(Shifted(b, 3)) && Shifted(b, 5) == Xtime(Shifted(b, 4))
    ensures Shifted(b, 6) == Xtime(Shifted(b, 5)) && Shifted(b, 7) == Xtime(Shifted(b, 6))
  {
    hide Xtime;
    assert Shifted(b, 1) == Xtime(b);
  }

  lemma FoldShifted(b: Elt, i: nat)
    requires i < 8
    ensures Fold(Fold(Shl(Widen(b), i))) == Widen(Shifted(b, i))
  {
    hide Fold, Widen, Shl, Xtime;
    ShiftedUnroll(b);
    if i == 0 { FoldShift0(b.v); } else if i == 1 { FoldShift1(b.v); } else if i == 2 { FoldShift2(b.v); }
    else if i == 3 { FoldShift3(b.v); } else if i == 4 { FoldShift4(b.v); } else if i == 5 { FoldShift5(b.v); }
    else if i == 6 { FoldShift6(b.v); } else { FoldShift7(b.v); }
  }

  lemma WidenAdd(a: Elt, b: Elt)
    ensures Widen(Add(a, b)) == Xor(Widen(a), Widen(b))
    ensures Widen(ZERO) == Wide(0) && Fold(Wide(0)) == Wide(0)
  {}

  /** Reducing the carry-less product is the field product. */
  lemma {:induction false} FoldCarryless(b: Elt, a: Elt, n: nat)
    requires n <= 8
    ensures Fold(Fold(Carryless(b, a, n))) == Widen(MulBits(b, a, n))
  {
    hide Xor, Fold, Shl, Widen, Add, Bit, Mask, Shifted;
    WidenAdd(ZERO, ZERO);
    if n > 0 {
      var bit, s := Bit(a, n - 1), Shl(Widen(b), n - 1);
      FoldCarryless(b, a, n - 1);
      FoldXor(Carryless(b, a, n - 1), PickWide(bit, s));
      FoldXor(Fold(Carryless(b, a, n - 1)), Fold(PickWide(bit, s)));
      FoldShifted(b, n - 1);
      WidenAdd(MulBits(b, a, n - 1), Pick(bit, Shifted(b, n - 1)));
    }
  }

  // ---- the methods of gf.c

  method GfCarrylessMul(a: Elt, b: Elt) returns (c: Wide)
    ensures c == Carryless(b, a, 8)
  {
    hide Xor, Shl, Widen, Packed, Bit, Carryless, Window;
    var low := Elt(b.v & 0x7F);
    var u := WindowTable(low);
    var g := SelectWindow(u, low, a.v & 3);
    var l, h := g.v, 0 as bv16;
    FirstWindow(low, a);
    var i := 2;
    while i < 8
      invariant i in {2, 4, 6, 8}
      invariant Packed(l, h) == Carryless(low, a, i)
    {
      g := SelectWindow(u, low, (a.v >> i) & 3);
      WindowSmall(low, (a.v >> i) & 3);
      CarrylessWindow(low, a, i);
      l, h := AddWindow(l, h, g.v, i);
      i := i + 2;
    }
    CarrylessTop(b, a, 8);
    l, h := AddTop(l, h, a, b);
    c := Packed(l, h);
  }

  method AddWindow(l: bv16, h: bv16, g: bv16, i: nat) returns (l': bv16, h': bv16)
    requires i in {2, 4, 6} && g < 0x200
    ensures Packed(l', h') == Xor(Packed(l, h), Shl(Wide(g), i))
  {
    PackedXor(l, h, g, i);
    l' := l ^ (g << i);
    h' := h ^ (g >> (8 - i));
  }

  method AddTop(l: bv16, h: bv16, a: Elt, b: Elt) returns (l': bv16, h': bv16)
    ensures Packed(l', h') == Xor(Packed(l, h), PickWide(Bit(b, 7), Carryless(Elt(0x80), a, 8)))
  {
    TopBit(l, h, a, b);
    XorZero(Packed(l, h));
    var mask := (b.v >> 7) & 1 == 1;
    l', h' := l, h;
    if mask {
      l' := l ^ ((a.v as bv16) << 7);
      h' := h ^ ((a.v as bv16) >> 1);
    }
  }

  /** The table u of multiples of b by 0..3. */
  method WindowTable(b: Elt) returns (u: seq<Wide>)
    ensures |u| == 4
    ensures u[0] == Window(0, Widen(b)) && u[1] == Window(1, Widen(b))
    ensures u[2] == Window(2, Widen(b)) && u[3] == Window(3, Widen(b))
  {
    var u1 := Widen(b);
    u := [Wide(0), u1, Shl(u1, 1), Xor(Shl(u1, 1), u1)];
  }

  /** The branch-free scan of the table: only the entry whose index equals tmp1 is kept. */
  method SelectWindow(u: seq<Wide>, ghost b: Elt, tmp1: bv8) returns (g: Wide)
    requires |u| == 4 && tmp1 < 4
    requires u[0] == Window(0, Widen(b)) && u[1] == Window(1, Widen(b))
    requires u[2] == Window(2, Widen(b)) && u[3] == Window(3, Widen(b))
    ensures g == Window(tmp1, Widen(b))
  {
    hide Window, Widen;
    g := Wide(0);
    var j: bv8 := 0;
    ghost var found := false;
    while j < 4
      invariant j <= 4
      invariant tmp1 < j ==> g == Window(tmp1, Widen(b))
      invariant tmp1 >= j ==> g == Wide(0)
      decreases 4 - j
    {
      if tmp1 == j {
        var entry := if j == 0 then u[0] else if j == 1 then u[1] else if j == 2 then u[2] else u[3];
        XorZero(entry);
        g := Xor(g, entry);
      }
      j := j + 1;
    }
  }

  lemma FirstWindow(b: Elt, a: Elt)
    requires b.v < 0x80
    ensures Packed(Window(a.v & 3, Widen(b)).v, 0) == Carryless(b, a, 2)
  {
    var w := Window(a.v & 3, Widen(b));
    WindowSmall(b, a.v & 3);
    PackedLow(w);
    assert Carryless(b, a, 2) == w by {
      hide Window, Widen, Shl, Xor;
      CarrylessWindow(b, a, 0);
      XorZero(w);
      ShlNone(w);
      assert a.v >> 0 == a.v;
    }
  }

  lemma PackedLow(w: Wide)
    requires w.v < 0x100
    ensures Packed(w.v, 0) == w
  {}

  lemma WindowSmall(b: Elt, t: bv8)
    requires b.v < 0x80 && t < 4
    ensures Window(t, Widen(b)).v < 0x100
  {}

  lemma TopBit(l: bv16, h: bv16, a: Elt, b: Elt)
    ensures Packed(l ^ ((a.v as bv16) << 7), h ^ ((a.v as bv16) >> 1)) == Xor(Packed(l, h), Carryless(Elt(0x80), a, 8))
    ensures Bit(b, 7) <==> (b.v >> 7) & 1 == 1
  {
    hide Carryless;
    TopWord(a);
  }

  lemma TopWord(a: Elt)
    ensures Carryless(Elt(0x80), a, 8) == Wide((a.v as bv16) << 7)
  {
    TopWordStep(a, 1, 0x00); TopWordStep(a, 2, 0x01); TopWordStep(a, 3, 0x03); TopWordStep(a, 4, 0x07);
    TopWordStep(a, 5, 0x0F); TopWordStep(a, 6, 0x1F); TopWordStep(a, 7, 0x3F); TopWordStep(a, 8, 0x7F);
    assert a.v & 0xFF == a.v;
  }

  lemma TopWordStep(a: Elt, n: nat, low: bv8)
    requires 1 <= n <= 8
    requires low == Mask(n - 1) - 1
    requires Carryless(Elt(0x80), a, n - 1) == Wide(((a.v & low) as bv16) << 7)
    ensures Carryless(Elt(0x80), a, n) == Wide(((a.v & (low | Mask(n - 1))) as bv16) << 7)
  {
    var m := Mask(n - 1);
    assert a.v & m == 0 || a.v & m == m;
  }

  predicate BitAt(a: bv16, k: nat)
    requires k < 16
  { (a >> k) & 1 == 1 }

  /** The number of trailing zero bits of a, or 14 when its low 14 bits are zero. */
  method TrailingZeroBitsCount(a: bv16) returns (count: nat)
    ensures count <= 14
    ensures forall k :: 0 <= k < count ==> !BitAt(a, k)
    ensures count < 14 ==> BitAt(a, count)
  {
    count := 0;
    var mask := true;
    for i := 0 to 14
      invariant count <= i
      invariant forall k :: 0 <= k < count ==> !BitAt(a, k)
      invariant if mask then count == i else BitAt(a, count)
    {
      if !BitAt(a, i) && mask {
        count := count + 1;
      } else {
        mask := false;
      }
    }
  }

  /** The number of trailing zeros of the three remainders met by GfReduce. */
  lemma RemainderZeros(z: nat, a: bv16)
    requires z <= 14 && (forall k :: 0 <= k < z ==> !BitAt(a, k)) && (z < 14 ==> BitAt(a, z))
    ensures a == 0x11C ==> z == 2
    ensures a == 0x118 ==> z == 3
    ensures a == 0x110 ==> z == 4
  {
    if a == 0x11C {
      assert BitAt(a, 2) && !BitAt(a, 0) && !BitAt(a, 1);
    } else if a == 0x118 {
      assert BitAt(a, 3) && !BitAt(a, 0) && !BitAt(a, 1) && !BitAt(a, 2);
    } else if a == 0x110 {
      assert BitAt(a, 4) && !BitAt(a, 0) && !BitAt(a, 1) && !BitAt(a, 2) && !BitAt(a, 3);
    }
  }

  /** The inner loop of gf_reduce, j terms before its end: rmdr lists the low terms of 0x11D still to be added. */
  ghost predicate Folding(x: Wide, r: Wide, mod: Wide, z1: nat, rmdr: bv16, j: nat) {
    var m := High(x);
    if j == 3 then z1 == 0 && rmdr == 0x11C && mod == m && r == Xor(Low(x), m)
    else if j == 2 then z1 == 2 && rmdr == 0x118 && mod == Shl(m, 2) && r == Xor(Xor(Low(x), m), Shl(m, 2))
    else if j == 1 then z1 == 3 && rmdr == 0x110 && mod == Shl(m, 3) && r == Xor(Xor(Xor(Low(x), m), Shl(m, 2)), Shl(m, 3))
    else r == Fold(x)
  }

  /** Reduction of a product of two bytes: ceil((14 - 7) / 4) = 2 folding steps. */
  method GfReduce(product: Wide) returns (r: Wide)
    ensures r == Fold(Fold(product))
  {
    r := product;
    var steps := 2;
    for i := 0 to steps
      invariant r == (if i == 0 then product else if i == 1 then Fold(product) else Fold(Fold(product)))
    {
      hide Xor, Low, High, Shl;
      ghost var x := r;
      var mod := High(r);
      r := Xor(Low(r), mod);
      var z1 := 0;
      var rmdr: bv16 := 0x11D ^ 1;
      var j := 3;
      while j > 0
        invariant 0 <= j <= 3
        invariant Folding(x, r, mod, z1, rmdr, j)
      {
        var z2 := TrailingZeroBitsCount(rmdr);
        RemainderZeros(z2, rmdr);
        ShlChain(High(x));
        mod := Shl(mod, z2 - z1);
        r := Xor(r, mod);
        rmdr := rmdr ^ (1 << z2);
        z1 := z2;
        j := j - 1;
      }
    }
  }

  lemma ShlChain(m: Wide)
    ensures Shl(Shl(m, 2), 1) == Shl(m, 3) && Shl(Shl(m, 3), 1) == Shl(m, 4)
  {}

  /** gf_mul is the field product. */
  method GfMul(a: Elt, b: Elt) returns (r: Elt)
    ensures r == Mul(a, b)
  {
    hide Mul, Carryless, Fold, Widen;
    var c := GfCarrylessMul(a, b);
    var w := GfReduce(c);
    FoldCarryless(b, a, 8);
    MulComm(a, b);
    assert Mul(b, a) == MulBits(b, a, 8) by { MulIsMulBits(b, a); }
    r := Narrow(w, Mul(a, b));
  }

  lemma MulIsMulBits(a: Elt, b: Elt)
    ensures Mul(a, b) == MulBits(a, b, 8)
  {}

  method Narrow(w: Wide, ghost a: Elt) returns (r: Elt)
    requires w == Widen(a)
    ensures r == a
  {
    r := Elt((w.v & 0xFF) as bv8);
  }

  // ---- gf_square: spreading the bits of a to the even positions

  function Spread(a: Elt, n: nat): Wide
    requires n <= 8
  {
    if n == 0 then Wide(0) else Xor(Spread(a, n - 1), PickWide(Bit(a, n - 1), Shl(Widen(Elt(Mask(n - 1))), n - 1)))
  }

  /** Squaring is additive, so the square is the sum of the squares of the set bits. */
  lemma {:induction false} FoldSpread(a: Elt, n: nat)
    requires n <= 8
    ensures Fold(Fold(Spread(a, n))) == Widen(Square(MulBits(ONE, a, n)))
  {
    hide Xor, Fold, Shl, Widen, Add, Bit, Mask, Shifted, Mul;
    WidenAdd(ZERO, ZERO);
    MulOne(ZERO);
    if n > 0 {
      var bit, m := Bit(a, n - 1), Elt(Mask(n - 1));
      var s := Shl(Widen(m), n - 1);
      FoldSpread(a, n - 1);
      FoldXor(Spread(a, n - 1), PickWide(bit, s));
      FoldXor(Fold(Spread(a, n - 1)), Fold(PickWide(bit, s)));
      FoldShifted(m, n - 1);
      ShiftedOne(n - 1);
      assert Shifted(m, n - 1) == Square(m) by { MulShifted(ONE, m, n - 1); OneMul(m); }
      var rest, top := MulBits(ONE, a, n - 1), Pick(bit, m);
      assert Square(top) == Pick(bit, Square(m)) by { MulOne(ZERO); }
      SquareAdd(rest, top);
      WidenAdd(Square(rest), Square(top));
    }
  }

  lemma SquareAdd(a: Elt, b: Elt)
    ensures Square(Add(a, b)) == Add(Square(a), Square(b))
  {
    hide Mul, Add;
    MulAdd(Add(a, b), a, b);
    MulAdd(a, b, a);
    MulAdd(a, b, b);
    MulComm(a, b);
    AddRegroup(Mul(a, a), Mul(a, b), Mul(a, b), Mul(b, b));
    AddAssoc(Mul(a, a), Mul(a, b), Add(Mul(a, b), Mul(b, b)));
    AddAssoc(Mul(a, b), Mul(a, b), Mul(b, b));
    AddZero(Mul(a, b));
    AddZero(Mul(b, b));
  }

  function And(a: Wide, b: Wide): Wide { Wide(a.v & b.v) }

  /** The mask 1 << 2i. */
  function EvenBit(i: nat): Wide
    requires i < 8
  {
    match i
    case 0 => Wide(0x0001) case 1 => Wide(0x0004) case 2 => Wide(0x0010) case 3 => Wide(0x0040)
    case 4 => Wide(0x0100) case 5 => Wide(0x0400) case 6 => Wide(0x1000) case 7 => Wide(0x4000)
  }

  lemma SpreadBit(a: Elt, i: nat)
    requires i < 8
    ensures And(Shl(Widen(a), i), EvenBit(i)) == PickWide(Bit(a, i), Shl(Widen(Elt(Mask(i))), i))
  {
    var m := Mask(i);
    assert a.v & m == 0 || a.v & m == m;
  }

  lemma ShlNone(m: Wide)
    ensures Shl(m, 0) == m
  {}

  lemma ShlChainLow(m: Wide)
    ensures Shl(Shl(m, 1), 1) == Shl(m, 2)
  {}

  lemma ShlChainHigh(m: Wide)
    ensures Shl(Shl(m, 4), 1) == Shl(m, 5) && Shl(Shl(m, 5), 1) == Shl(m, 6)
  {}

  lemma ShlChainTop(m: Wide)
    ensures Shl(Shl(m, 6), 1) == Shl(m, 7)
  {}

  lemma ShlNext(w: Wide, i: nat)
    requires 1 <= i < 8
    ensures Shl(Shl(w, i - 1), 1) == Shl(w, i)
  {
    hide Shl;
    ShlNone(w);
    ShlChainLow(w);
    ShlChain(w);
    ShlChainHigh(w);
    ShlChainTop(w);
    assert i in {1, 2, 3, 4, 5, 6, 7};
  }

  /** gf_square is the field square. */
  method GfSquare(a: Elt) returns (r: Elt)
    ensures r == Square(a)
  {
    hide Xor, Fold, Shl, Widen, Bit, Mask, Shifted, Mul, And, EvenBit, PickWide;
    var b := Widen(a);
    var s := And(b, EvenBit(0));
    ShlNone(b);
    ShlChainLow(b);
    SpreadBit(a, 0);
    XorZero(s);
    var i := 1;
    while i < 8
      invariant 1 <= i <= 8
      invariant b == Shl(Widen(a), i - 1)
      invariant s == Spread(a, i)
    {
      ShlNext(Widen(a), i);
      SpreadBit(a, i);
      b := Shl(b, 1);
      s := Xor(s, And(b, EvenBit(i)));
      i := i + 1;
    }
    var w := GfReduce(s);
    FoldSpread(a, 8);
    OneMul(a);
    assert MulBits(ONE, a, 8) == a by { MulIsMulBits(ONE, a); }
    r := Narrow(w, Square(a));
  }

  /** gf_inverse follows the addition chain to the exponent 254. */
  method GfInverse(a: Elt) returns (inv: Elt)
    ensures inv == Inverse(a)
    ensures a != ZERO ==> Mul(a, inv) == ONE
  {
    hide Mul;
    inv := GfSquare(a);
    var tmp1 := GfMul(inv, a);
    inv := GfSquare(inv);
    var tmp2 := GfMul(inv, tmp1);
    tmp1 := GfMul(inv, tmp2);
    inv := GfMul(tmp1, inv);
    inv := GfSquare(inv);
    inv := GfSquare(inv);
    inv := GfSquare(inv);
    inv := GfMul(inv, tmp2);
    inv := GfSquare(inv);
    InverseCorrect(a);
  }
}
