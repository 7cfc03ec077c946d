/** base_mul: the carry-less product of two words by windows of four bits. */
module BaseMultiplication {
  import opened BinaryPolynomials
  import opened Words64

  // ---- windows

  /** The product of the four bits of t with g, at n. */
  predicate Window(t: nat, g: int -> bool, n: int) {
    (t % 2 == 1 && g(n)) != ((t / 2 % 2 == 1 && g(n - 1)) != ((t / 4 % 2 == 1 && g(n - 2)) != (t / 8 % 2 == 1 && g(n - 3))))
  }

  /** Entry t of the table holds the window product with the low sixty bits of b. */
  ghost predicate Entry(w: Word, t: nat, b: Word) {
    forall k {:trigger BitOf([w], k)} :: BitOf([w], k) == Window(t, Bits([LowMask(b, 60)]), k)
  }

  lemma BitOfOne(w: Word, k: int)
    ensures BitOf([w], k) == (0 <= k < BITS && w[k])
  {}

  lemma BitOfPair(l: Word, h: Word, k: int)
    ensures BitOf([l, h], k) == if k < BITS then BitOf([l], k) else BitOf([h], k - BITS)
  {
    BitConcat([l], [h], k);
    assert [l, h] == [l] + [h];
  }

  lemma EntryDouble(w: Word, t: nat, b: Word)
    requires t < 8 && Entry(w, t, b)
    ensures Entry(Shl(w, 1), 2 * t, b)
  {
    hide BitOf;
    var g := Bits([LowMask(b, 60)]);
    forall k
      ensures BitOf([Shl(w, 1)], k) == Window(2 * t, g, k)
    {
      BitOfOne(Shl(w, 1), k);
      BitOfOne(w, k - 1);
      assert BitOf([w], k - 1) == Window(t, g, k - 1);
      assert 2 * t % 2 == 0 && 2 * t / 2 == t && 2 * t / 4 == t / 2 && 2 * t / 8 == t / 4 && t / 8 == 0;
      WindowShift(t, g, k);
      if k >= BITS { TopBits(b, k); }
      if k == 0 { BitOfOne(LowMask(b, 60), -1); BitOfOne(LowMask(b, 60), -2); BitOfOne(LowMask(b, 60), -3); BitOfOne(LowMask(b, 60), -4); }
    }
  }

  lemma WindowShift(t: nat, g: int -> bool, k: int)
    requires t < 8
    ensures Window(2 * t, g, k) == Window(t, g, k - 1)
  {
    assert 2 * t % 2 == 0 && 2 * t / 2 == t && 2 * t / 4 == t / 2 && 2 * t / 8 == t / 4 && t / 8 == 0;
  }

  lemma TopBits(b: Word, k: int)
    requires k >= BITS
    ensures !Bits([LowMask(b, 60)])(k) && !Bits([LowMask(b, 60)])(k - 1) && !Bits([LowMask(b, 60)])(k - 2)
    ensures !Bits([LowMask(b, 60)])(k - 3) && !Bits([LowMask(b, 60)])(k - 4)
  {
    hide BitOf;
    BitOfOne(LowMask(b, 60), k);
    BitOfOne(LowMask(b, 60), k - 1);
    BitOfOne(LowMask(b, 60), k - 2);
    BitOfOne(LowMask(b, 60), k - 3);
    BitOfOne(LowMask(b, 60), k - 4);
  }

  lemma EntryNext(w: Word, t: nat, b: Word)
    requires t < 16 && t % 2 == 0 && Entry(w, t, b)
    ensures Entry(Xor(w, LowMask(b, 60)), t + 1, b)
  {
    hide BitOf;
    var g, u := Bits([LowMask(b, 60)]), LowMask(b, 60);
    forall k
      ensures BitOf([Xor(w, u)], k) == Window(t + 1, g, k)
    {
      BitOfOne(Xor(w, u), k);
      BitOfOne(w, k);
      BitOfOne(u, k);
      assert BitOf([w], k) == Window(t, g, k);
      assert (t + 1) / 2 == t / 2 && (t + 1) / 4 == t / 4 && (t + 1) / 8 == t / 8;
    }
  }

  lemma EntryZero(b: Word)
    ensures Entry(Zero(), 0, b)
  {
    hide BitOf;
    forall k
      ensures BitOf([Zero()], k) == Window(0, Bits([LowMask(b, 60)]), k)
    {
      BitOfOne(Zero(), k);
    }
  }

  method WindowTable(b: Word) returns (u: seq<Word>)
    ensures |u| == 16 && forall t :: 0 <= t < 16 ==> Entry(u[t], t, b)
  {
    hide Entry, Shl, Xor, LowMask, Zero;
    EntryZero(b);
    EntryNext(Zero(), 0, b);
    XorZero(LowMask(b, 60));
    u := [Zero(), LowMask(b, 60)];
    var t := 2;
    while t < 16
      invariant 2 <= t <= 16 && t % 2 == 0 && |u| == t && u[1] == LowMask(b, 60)
      invariant forall k :: 0 <= k < t ==> Entry(u[k], k, b)
    {
      EntryDouble(u[t / 2], t / 2, b);
      var even := Shl(u[t / 2], 1);
      EntryNext(even, t, b);
      var odd := Xor(even, u[1]);
      u := u + [even, odd];
      t := t + 2;
    }
  }

  lemma XorZero(w: Word)
    ensures Xor(Zero(), w) == w && Xor(w, Zero()) == w
  {}

  /** The constant-time table look-up. */
  method Select(u: seq<Word>, t: nat) returns (g: Word)
    requires |u| == 16 && t < 16
    ensures g == u[t]
  {
    hide Xor, Zero;
    g := Zero();
    var i := 0;
    while i < 16
      invariant 0 <= i <= 16
      invariant g == if t < i then u[t] else Zero()
    {
      XorZero(u[i]);
      XorZero(g);
      g := Xor(g, MaskIf(t == i, u[i]));
      i := i + 1;
    }
  }

  /** (a >> i) & 15. */
  function Nibble(a: Word, i: nat): (t: nat)
    requires i + 4 <= BITS
    ensures t < 16
  {
    (if a[i] then 1 else 0) + (if a[i + 1] then 2 else 0) + (if a[i + 2] then 4 else 0) + (if a[i + 3] then 8 else 0)
  }

  lemma NibbleBits(a: Word, i: nat)
    requires i + 4 <= BITS
    ensures (Nibble(a, i) % 2 == 1) == a[i] && (Nibble(a, i) / 2 % 2 == 1) == a[i + 1]
    ensures (Nibble(a, i) / 4 % 2 == 1) == a[i + 2] && (Nibble(a, i) / 8 % 2 == 1) == a[i + 3]
  {}

  // ---- accumulating shifted words in a pair

  /** (l, h) ^ (g << i, g >> (64 - i)) adds g * X^i. */
  lemma AddShifted(l: Word, h: Word, g: Word, i: nat, n: int)
    requires 0 < i < BITS
    ensures BitOf([Xor(l, Shl(g, i)), Xor(h, Shr(g, BITS - i))], n) == (BitOf([l, h], n) != BitOf([g], n - i))
  {
    hide BitOf;
    BitOfPair(Xor(l, Shl(g, i)), Xor(h, Shr(g, BITS - i)), n);
    BitOfPair(l, h, n);
    BitOfOne(g, n - i);
    BitOfOne(l, n);
    BitOfOne(Xor(l, Shl(g, i)), n);
    BitOfOne(h, n - BITS);
    BitOfOne(Xor(h, Shr(g, BITS - i)), n - BITS);
  }

  /** Four more coefficients of a are one window. */
  lemma ConvWindow(a: Word, i: nat, g: int -> bool, n: int)
    requires i + 4 <= BITS
    ensures Conv(Bits([a]), i + 4, g, n) == (Conv(Bits([a]), i, g, n) != Window(Nibble(a, i), g, n - i))
  {
    hide BitOf, Nibble;
    var f := Bits([a]);
    BitOfOne(a, i); BitOfOne(a, i + 1); BitOfOne(a, i + 2); BitOfOne(a, i + 3);
    NibbleBits(a, i);
    ConvUnfold(f, i, g, n);
    ConvUnfold(f, i + 1, g, n);
    ConvUnfold(f, i + 2, g, n);
    ConvUnfold(f, i + 3, g, n);
    assert n - i - 1 == n - (i + 1) && n - i - 2 == n - (i + 2) && n - i - 3 == n - (i + 3);
  }

  lemma ConvUnfold(f: int -> bool, m: nat, g: int -> bool, n: int)
    ensures Conv(f, m + 1, g, n) == (Conv(f, m, g, n) != (f(m) && g(n - m)))
  {}

  /** One more bit of b adds one shifted copy of a. */
  lemma NextBit(a: Word, b: Word, j: nat, n: int)
    requires j < BITS
    ensures Product([a], [LowMask(b, j + 1)], n) == (Product([a], [LowMask(b, j)], n) != (b[j] && BitOf([a], n - j)))
  {
    hide BitOf, Conv;
    var f, g, g1, d := Bits([a]), Bits([LowMask(b, j + 1)]), Bits([LowMask(b, j)]), (k: int) => b[j] && k == j;
    forall k {:trigger g(k)}
      ensures g(k) == (g1(k) != d(k - 0))
    {
      BitOfOne(LowMask(b, j + 1), k);
      BitOfOne(LowMask(b, j), k);
    }
    ConvAddRight(f, BITS, g, g1, d, 0, n);
    if b[j] {
      ConvMonomial(f, BITS, d, j, n);
      BitOfOne(a, n - j);
    } else {
      ConvZero(f, BITS, d, n);
    }
  }

  lemma FullMask(b: Word)
    ensures LowMask(b, BITS) == b
  {}

  /** The low sixty bits of b, window by window. */
  method LowProduct(a: Word, b: Word) returns (l: Word, h: Word)
    ensures forall n {:trigger BitOf([l, h], n)} :: BitOf([l, h], n) == Product([a], [LowMask(b, 60)], n)
  {
    hide BitOf, Conv, Shl, Shr, Xor, LowMask, Zero, Nibble, Window, Entry;
    ghost var gb := Bits([LowMask(b, 60)]);
    var u := WindowTable(b);
    var g := Select(u, Nibble(a, 0));
    l, h := g, Zero();
    forall n {:trigger BitOf([l, h], n)}
      ensures BitOf([l, h], n) == Conv(Bits([a]), 4, gb, n)
    {
      FirstWindow(a, b, g, gb, n);
    }
    var i := 4;
    while i < BITS
      invariant 4 <= i <= BITS && i % 4 == 0
      invariant forall n {:trigger BitOf([l, h], n)} :: BitOf([l, h], n) == Conv(Bits([a]), i, gb, n)
    {
      g := Select(u, Nibble(a, i));
      ghost var l0, h0 := l, h;
      l, h := Xor(l, Shl(g, i)), Xor(h, Shr(g, BITS - i));
      forall n {:trigger BitOf([l, h], n)}
        ensures BitOf([l, h], n) == Conv(Bits([a]), i + 4, gb, n)
      {
        AddShifted(l0, h0, g, i, n);
        ConvWindow(a, i, gb, n);
        EntryBit(g, Nibble(a, i), b, n - i);
      }
      i := i + 4;
    }
  }

  lemma EntryBit(w: Word, t: nat, b: Word, k: int)
    requires Entry(w, t, b)
    ensures BitOf([w], k) == Window(t, Bits([LowMask(b, 60)]), k)
  {}

  lemma FirstWindow(a: Word, b: Word, g: Word, gb: int -> bool, n: int)
    requires gb == Bits([LowMask(b, 60)]) && Entry(g, Nibble(a, 0), b)
    ensures BitOf([g, Zero()], n) == Conv(Bits([a]), 4, gb, n)
  {
    hide BitOf, Nibble, Window;
    ConvWindow(a, 0, gb, n);
    assert !Conv(Bits([a]), 0, gb, n);
    BitOfPair(g, Zero(), n);
    BitOfOne(Zero(), n - BITS);
    EntryBit(g, Nibble(a, 0), b, n);
    if n >= BITS { BitOfOne(g, n); }
  }

  /** base_mul: lo and hi are the two words of the product. */
  method BaseMul(a: Word, b: Word) returns (lo: Word, hi: Word)
    ensures forall n {:trigger BitOf([lo, hi], n)} :: BitOf([lo, hi], n) == Product([a], [b], n)
  {
    hide BitOf, Product, Shl, Shr, Xor, LowMask;
    lo, hi := LowProduct(a, b);
    var j := 60;
    while j < BITS
      invariant 60 <= j <= BITS
      invariant forall n {:trigger BitOf([lo, hi], n)} :: BitOf([lo, hi], n) == Product([a], [LowMask(b, j)], n)
    {
      ghost var l0, h0 := lo, hi;
      lo, hi := Xor(lo, MaskIf(b[j], Shl(a, j))), Xor(hi, MaskIf(b[j], Shr(a, BITS - j)));
      forall n {:trigger BitOf([lo, hi], n)}
        ensures BitOf([lo, hi], n) == Product([a], [LowMask(b, j + 1)], n)
      {
        NextBit(a, b, j, n);
        AddShifted(l0, h0, a, j, n);
        XorZero(l0);
        XorZero(h0);
      }
      j := j + 1;
    }
    FullMask(b);
  }
}
