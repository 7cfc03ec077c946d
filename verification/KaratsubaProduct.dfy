/** gf2x.c: Karatsuba multiplication in place against the schoolbook product of binary polynomials. */
module KaratsubaProduct {
  import opened BinaryPolynomials
  import opened Words64
  import opened BaseMultiplication

  // ---- the identity

  /** The sums that the recursion puts together. */
  lemma KaratsubaIdentity(al: seq<Word>, ah: seq<Word>, bl: seq<Word>, bh: seq<Word>, n: int)
    requires |al| == |bl| && |ah| == |bh| && |ah| <= |al|
    ensures Product(al + ah, bl + bh, n)
         == ((Product(al, bl, n) != Product(ah, bh, n - 2 * BITS * |al|))
            != ((Product(XorAll(al, ah), XorAll(bl, bh), n - BITS * |al|) != Product(al, bl, n - BITS * |al|))
               != Product(ah, bh, n - BITS * |al|)))
  {
    hide Product, XorAll;
    var l := BITS * |al|;
    ProductSplitLeft(al, ah, bl + bh, n);
    ProductSplitRight(al, bl, bh, n);
    ProductSplitRight(ah, bl, bh, n - l);
    ProductXorLeft(al, ah, XorAll(bl, bh), n - l);
    ProductXorRight(al, bl, bh, n - l);
    ProductXorRight(ah, bl, bh, n - l);
    assert n - l - l == n - 2 * BITS * |al|;
  }

  /** The vector r holds the product of a and b. */
  ghost predicate IsProduct(r: seq<Word>, a: seq<Word>, b: seq<Word>) {
    |r| == |a| + |b| && forall n {:trigger BitOf(r, n)} :: BitOf(r, n) == Product(a, b, n)
  }

  /** r is z0 + X^2L z2 + X^L (z1 + z0 + z2), word by word. */
  ghost predicate Combined(r: seq<Word>, z0: seq<Word>, z1: seq<Word>, z2: seq<Word>, l: nat) {
    && |z0| == |z1| == 2 * l && |r| == |z0| + |z2| && |z2| <= 2 * l && l <= |z2|
    && forall i :: 0 <= i < |r| ==>
         r[i] == if l <= i < 3 * l then Xor((z0 + z2)[i], XorAll(XorAll(z1, z0), z2)[i - l]) else (z0 + z2)[i]
  }

  lemma CombinedBits(r: seq<Word>, z0: seq<Word>, z1: seq<Word>, z2: seq<Word>, l: nat, n: int)
    requires Combined(r, z0, z1, z2, l)
    ensures BitOf(r, n) == ((BitOf(z0, n) != BitOf(z2, n - 2 * BITS * l))
                         != ((BitOf(z1, n - BITS * l) != BitOf(z0, n - BITS * l)) != BitOf(z2, n - BITS * l)))
  {
    hide XorAll, Xor;
    var m := XorAll(XorAll(z1, z0), z2);
    BitXorAll(XorAll(z1, z0), z2, n - BITS * l);
    BitXorAll(z1, z0, n - BITS * l);
    BitConcat(z0, z2, n);
    CombinedMiddle(r, z0 + z2, m, l, n);
  }

  lemma CombinedMiddle(r: seq<Word>, z: seq<Word>, m: seq<Word>, l: nat, n: int)
    requires |m| == 2 * l && |r| == |z| && 3 * l <= |z|
    requires forall i :: 0 <= i < |r| ==> r[i] == if l <= i < 3 * l then Xor(z[i], m[i - l]) else z[i]
    ensures BitOf(r, n) == (BitOf(z, n) != BitOf(m, n - BITS * l))
  {
    if 0 <= n < BITS * |r| {
      ShiftIndex(n, l);
      var i := n / BITS;
      assert r[i] == if l <= i < 3 * l then Xor(z[i], m[i - l]) else z[i];
    }
  }

  /** Putting the three half-size products together gives the product. */
  lemma CombinedIsProduct(r: seq<Word>, z0: seq<Word>, z1: seq<Word>, z2: seq<Word>,
                          al: seq<Word>, ah: seq<Word>, bl: seq<Word>, bh: seq<Word>)
    requires |al| == |bl| && |ah| == |bh| && |ah| <= |al|
    requires Combined(r, z0, z1, z2, |al|)
    requires IsProduct(z0, al, bl) && IsProduct(z2, ah, bh) && IsProduct(z1, XorAll(al, ah), XorAll(bl, bh))
    ensures IsProduct(r, al + ah, bl + bh)
  {
    hide BitOf, Product, XorAll, Combined;
    var l := |al|;
    forall n {:trigger BitOf(r, n)}
      ensures BitOf(r, n) == Product(al + ah, bl + bh, n)
    {
      CombinedBits(r, z0, z1, z2, l, n);
      KaratsubaIdentity(al, ah, bl, bh, n);
    }
    CombinedLength(r, z0, z1, z2, l);
  }

  lemma CombinedLength(r: seq<Word>, z0: seq<Word>, z1: seq<Word>, z2: seq<Word>, l: nat)
    requires Combined(r, z0, z1, z2, l)
    ensures |r| == |z0| + |z2|
  {}

  // ---- the methods; all vectors are regions of one memory of words

  function Half(size: nat): nat { (size + 1) / 2 }

  /** The words of scratch space that karatsuba uses. */
  function StackNeed(size: nat): nat {
    if size <= 1 then 0 else 4 * Half(size) + StackNeed(Half(size))
  }

  lemma {:induction false} StackBound(size: nat)
    requires size >= 1
    ensures StackNeed(size) <= 8 * size - 8
  {
    if size > 1 { StackBound(Half(size)); }
  }

  lemma {:induction false} StackMonotone(m: nat, n: nat)
    requires m <= n
    ensures StackNeed(m) <= StackNeed(n)
  {
    if m > 1 { StackMonotone(Half(m), Half(n)); }
  }

  predicate Apart(p: nat, n: nat, q: nat, m: nat) { p + n <= q || q + m <= p }

  /** Two snapshots of memory agree outside the two regions. */
  ghost predicate Frame(m0: seq<Word>, m1: seq<Word>, p: nat, n: nat, q: nat, m: nat) {
    |m0| == |m1| && forall i :: 0 <= i < |m0| && !(p <= i < p + n) && !(q <= i < q + m) ==> m1[i] == m0[i]
  }

  /** The n words from p on. */
  function Slice(m: seq<Word>, p: nat, n: nat): (r: seq<Word>)
    requires p + n <= |m|
    ensures |r| == n
  {
    m[p..p + n]
  }

  lemma FrameSlice(m0: seq<Word>, m1: seq<Word>, p: nat, n: nat, q: nat, m: nat, a: nat, len: nat)
    requires Frame(m0, m1, p, n, q, m) && a + len <= |m0| && Apart(a, len, p, n) && Apart(a, len, q, m)
    ensures a + len <= |m1| && Slice(m1, a, len) == Slice(m0, a, len)
  {}

  /** The cells [p, p+n) all lie in [o, o+s) or in [t, t+u). */
  predicate Inside(p: nat, n: nat, o: nat, s: nat, t: nat, u: nat) {
    (o <= p && p + n <= o + s) || (t <= p && p + n <= t + u)
  }

  lemma FrameThen(m0: seq<Word>, m1: seq<Word>, m2: seq<Word>, p: nat, n: nat, q: nat, m: nat, o: nat, s: nat, t: nat, u: nat)
    requires Frame(m0, m1, o, s, t, u) && Frame(m1, m2, p, n, q, m)
    requires Inside(p, n, o, s, t, u) && Inside(q, m, o, s, t, u)
    ensures Frame(m0, m2, o, s, t, u)
  {}

  /** karatsuba_add1: the sums of the halves. */
  method KaratsubaAdd1(mem: array<Word>, alh: nat, blh: nat, a: nat, b: nat, l: nat, h: nat)
    requires h <= l <= h + 1 && blh == alh + l && blh + l <= mem.Length
    requires a + l + h <= mem.Length && b + l + h <= mem.Length
    requires Apart(alh, 2 * l, a, l + h) && Apart(alh, 2 * l, b, l + h)
    modifies mem
    ensures Slice(mem[..], alh, l) == XorAll(old(Slice(mem[..], a, l)), old(Slice(mem[..], a + l, h)))
    ensures Slice(mem[..], blh, l) == XorAll(old(Slice(mem[..], b, l)), old(Slice(mem[..], b + l, h)))
    ensures Frame(old(mem[..]), mem[..], alh, 2 * l, alh, 0)
  {
    hide Xor;
    ghost var m0 := mem[..];
    SumHalves(mem, alh, a, l, h);
    ghost var m1 := mem[..];
    FrameSlice(m0, m1, alh, l, alh, 0, b, l);
    FrameSlice(m0, m1, alh, l, alh, 0, b + l, h);
    SumHalves(mem, blh, b, l, h);
    FrameSlice(m1, mem[..], blh, l, blh, 0, alh, l);
  }

  /** mem[dst..] = low ^ high, the last word copied when the high half is shorter. */
  method SumHalves(mem: array<Word>, dst: nat, a: nat, l: nat, h: nat)
    requires h <= l <= h + 1 && dst + l <= mem.Length && a + l + h <= mem.Length && Apart(dst, l, a, l + h)
    modifies mem
    ensures Slice(mem[..], dst, l) == XorAll(old(Slice(mem[..], a, l)), old(Slice(mem[..], a + l, h)))
    ensures Frame(old(mem[..]), mem[..], dst, l, dst, 0)
  {
    hide Xor;
    ghost var m0 := mem[..];
    var i := 0;
    while i < h
      invariant 0 <= i <= h
      invariant forall k :: dst <= k < dst + i ==> mem[k] == Xor(m0[k - dst + a], m0[k - dst + a + l])
      invariant forall k :: 0 <= k < mem.Length && !(dst <= k < dst + i) ==> mem[k] == m0[k]
    {
      mem[dst + i] := Xor(mem[a + i], mem[a + i + l]);
      i := i + 1;
    }
    if h < l {
      mem[dst + h] := mem[a + h];
    }
    SumSlice(m0, mem[..], dst, a, l, h);
  }

  lemma SumSlice(m0: seq<Word>, m1: seq<Word>, dst: nat, a: nat, l: nat, h: nat)
    requires |m0| == |m1| && h <= l <= h + 1 && dst + l <= |m0| && a + l + h <= |m0|
    requires forall k :: dst <= k < dst + h ==> m1[k] == Xor(m0[k - dst + a], m0[k - dst + a + l])
    requires h < l ==> m1[dst + h] == m0[a + h]
    ensures Slice(m1, dst, l) == XorAll(Slice(m0, a, l), Slice(m0, a + l, h))
  {
    hide Xor;
    var c := XorAll(Slice(m0, a, l), Slice(m0, a + l, h));
    forall i | 0 <= i < l ensures m1[dst + i] == c[i] {
      if i < h {
        var k := dst + i;
        assert m1[k] == Xor(m0[k - dst + a], m0[k - dst + a + l]);
      }
    }
  }

  /** mem[dst..] ^= mem[src..] on n words. */
  method XorInto(mem: array<Word>, dst: nat, src: nat, n: nat)
    requires dst + n <= mem.Length && src + n <= mem.Length && Apart(dst, n, src, n)
    modifies mem
    ensures Slice(mem[..], dst, n) == XorAll(old(Slice(mem[..], dst, n)), old(Slice(mem[..], src, n)))
    ensures Frame(old(mem[..]), mem[..], dst, n, dst, 0)
  {
    hide Xor;
    ghost var m0 := mem[..];
    var i := 0;
    while i < n
      invariant 0 <= i <= n
      invariant forall k :: dst <= k < dst + i ==> mem[k] == Xor(m0[k], m0[k - dst + src])
      invariant forall k :: 0 <= k < mem.Length && !(dst <= k < dst + i) ==> mem[k] == m0[k]
    {
      mem[dst + i] := Xor(mem[dst + i], mem[src + i]);
      i := i + 1;
    }
    XorSlice(m0, mem[..], dst, src, n);
  }

  lemma XorSlice(m0: seq<Word>, m1: seq<Word>, dst: nat, src: nat, n: nat)
    requires |m0| == |m1| && dst + n <= |m0| && src + n <= |m0|
    requires forall k :: dst <= k < dst + n ==> m1[k] == Xor(m0[k], m0[k - dst + src])
    ensures Slice(m1, dst, n) == XorAll(Slice(m0, dst, n), Slice(m0, src, n))
  {
    hide Xor;
    var c := XorAll(Slice(m0, dst, n), Slice(m0, src, n));
    forall i | 0 <= i < n ensures m1[dst + i] == c[i] {
      var k := dst + i;
      assert m1[k] == Xor(m0[k], m0[k - dst + src]);
    }
  }

  /** karatsuba_add2: tmp2 lies in o behind the first product. */
  method KaratsubaAdd2(mem: array<Word>, o: nat, tmp1: nat, tmp2: nat, l: nat, h: nat)
    requires 1 <= h <= l <= h + 1 && tmp2 == o + 2 * l
    requires o + 2 * (l + h) <= mem.Length && tmp1 + 2 * l <= mem.Length
    requires Apart(o, 2 * (l + h), tmp1, 2 * l)
    modifies mem
    ensures Combined(Slice(mem[..], o, 2 * (l + h)), old(Slice(mem[..], o, 2 * l)), old(Slice(mem[..], tmp1, 2 * l)),
                     old(Slice(mem[..], tmp2, 2 * h)), l)
    ensures Frame(old(mem[..]), mem[..], o, 2 * (l + h), tmp1, 2 * l)
  {
    hide Xor, Combined, XorAll, Frame, Slice;
    ghost var m0 := mem[..];
    XorInto(mem, tmp1, o, 2 * l);
    ghost var m1 := mem[..];
    XorInto(mem, tmp1, tmp2, 2 * h);
    ghost var m2 := mem[..];
    XorInto(mem, o + l, tmp1, 2 * l);
    Add2Middle(m0, m1, m2, o, tmp1, l, h);
    Add2Result(m0, m1, m2, mem[..], o, tmp1, l, h);
    Add2Frame(m0, m1, m2, mem[..], o, tmp1, l, h);
  }

  lemma Add2Middle(m0: seq<Word>, m1: seq<Word>, m2: seq<Word>, o: nat, t: nat, l: nat, h: nat)
    requires 1 <= h <= l <= h + 1 && |m0| == |m1| == |m2|
    requires o + 2 * l + 2 * h <= |m0| && t + 2 * l <= |m0| && Apart(o, 2 * l + 2 * h, t, 2 * l)
    requires Frame(m0, m1, t, 2 * l, t, 0) && Frame(m1, m2, t, 2 * h, t, 0)
    requires Slice(m1, t, 2 * l) == XorAll(Slice(m0, t, 2 * l), Slice(m0, o, 2 * l))
    requires Slice(m2, t, 2 * h) == XorAll(Slice(m1, t, 2 * h), Slice(m1, o + 2 * l, 2 * h))
    ensures Slice(m2, t, 2 * l) == XorAll(XorAll(Slice(m0, t, 2 * l), Slice(m0, o, 2 * l)), Slice(m0, o + 2 * l, 2 * h))
    ensures Slice(m2, o, 2 * l + 2 * h) == Slice(m0, o, 2 * l + 2 * h)
  {
    hide Xor, XorAll;
    var x, y, z := Slice(m1, t, 2 * l), Slice(m2, t, 2 * l), Slice(m0, o + 2 * l, 2 * h);
    assert Slice(m1, o + 2 * l, 2 * h) == z;
    assert x[..2 * h] == Slice(m1, t, 2 * h) && y[..2 * h] == Slice(m2, t, 2 * h);
    assert y[2 * h..] == x[2 * h..];
    Shorter(x, y, z);
  }

  lemma Add2Result(m0: seq<Word>, m1: seq<Word>, m2: seq<Word>, m3: seq<Word>, o: nat, t: nat, l: nat, h: nat)
    requires 1 <= h <= l <= h + 1 && |m0| == |m1| == |m2| == |m3|
    requires o + 2 * l + 2 * h <= |m0| && t + 2 * l <= |m0|
    requires Frame(m2, m3, o + l, 2 * l, o + l, 0)
    requires Slice(m2, t, 2 * l) == XorAll(XorAll(Slice(m0, t, 2 * l), Slice(m0, o, 2 * l)), Slice(m0, o + 2 * l, 2 * h))
    requires Slice(m2, o, 2 * l + 2 * h) == Slice(m0, o, 2 * l + 2 * h)
    requires Slice(m3, o + l, 2 * l) == XorAll(Slice(m2, o + l, 2 * l), Slice(m2, t, 2 * l))
    ensures Combined(Slice(m3, o, 2 * (l + h)), Slice(m0, o, 2 * l), Slice(m0, t, 2 * l), Slice(m0, o + 2 * l, 2 * h), l)
  {
    hide Xor, XorAll, Combined;
    var s := 2 * (l + h);
    var r, r2, z0, z2 := Slice(m3, o, s), Slice(m2, o, s), Slice(m0, o, 2 * l), Slice(m0, o + 2 * l, 2 * h);
    assert z0 + z2 == Slice(m0, o, s);
    assert r[..l] == r2[..l] && r[3 * l..] == r2[3 * l..];
    MiddleSlice(m3, o, l, s);
    MiddleSlice(m2, o, l, s);
    assert r2 == Slice(m0, o, s);
    AddedProducts(r, z0, Slice(m0, t, 2 * l), z2, l);
  }

  lemma MiddleSlice(m: seq<Word>, o: nat, l: nat, s: nat)
    requires o + s <= |m| && 3 * l <= s
    ensures Slice(m, o, s)[l..3 * l] == Slice(m, o + l, 2 * l)
  {
    var x, y := Slice(m, o, s)[l..3 * l], Slice(m, o + l, 2 * l);
    forall i | 0 <= i < 2 * l ensures x[i] == y[i] {}
  }

  lemma Add2Frame(m0: seq<Word>, m1: seq<Word>, m2: seq<Word>, m3: seq<Word>, o: nat, t: nat, l: nat, h: nat)
    requires h <= l <= h + 1 && 1 <= h
    requires Frame(m0, m1, t, 2 * l, t, 0) && Frame(m1, m2, t, 2 * h, t, 0) && Frame(m2, m3, o + l, 2 * l, o + l, 0)
    ensures Frame(m0, m3, o, 2 * (l + h), t, 2 * l)
  {}

  lemma Shorter(x: seq<Word>, y: seq<Word>, z: seq<Word>)
    requires |z| <= |x| == |y| && y[..|z|] == XorAll(x[..|z|], z) && y[|z|..] == x[|z|..]
    ensures y == XorAll(x, z)
  {
    hide Xor;
    forall i | 0 <= i < |x| ensures y[i] == XorAll(x, z)[i] {
      if i < |z| { assert y[i] == y[..|z|][i]; } else { assert y[i] == y[|z|..][i - |z|]; }
    }
  }

  lemma AddedProducts(r: seq<Word>, z0: seq<Word>, z1: seq<Word>, z2: seq<Word>, l: nat)
    requires |z0| == |z1| == 2 * l && |z2| <= 2 * l && l <= |z2| && |r| == |z0| + |z2|
    requires r[..l] == (z0 + z2)[..l] && r[3 * l..] == (z0 + z2)[3 * l..]
    requires r[l..3 * l] == XorAll((z0 + z2)[l..3 * l], XorAll(XorAll(z1, z0), z2))
    ensures Combined(r, z0, z1, z2, l)
  {
    hide Xor;
    var z := z0 + z2;
    forall i | 0 <= i < |r|
      ensures r[i] == if l <= i < 3 * l then Xor(z[i], XorAll(XorAll(z1, z0), z2)[i - l]) else z[i]
    {
      if i < l { assert r[i] == r[..l][i]; }
      else if i < 3 * l { assert r[i] == r[l..3 * l][i - l]; }
      else { assert r[i] == r[3 * l..][i - 3 * l]; }
    }
  }

  /** karatsuba on memory regions: o receives the product; only o and the scratch region change. */
  method Karatsuba(mem: array<Word>, o: nat, a: nat, b: nat, size: nat, stack: nat)
    requires size >= 1
    requires o + 2 * size <= mem.Length && a + size <= mem.Length && b + size <= mem.Length
    requires stack + StackNeed(size) <= mem.Length
    requires Apart(o, 2 * size, a, size) && Apart(o, 2 * size, b, size)
    requires Apart(stack, StackNeed(size), a, size) && Apart(stack, StackNeed(size), b, size)
    requires Apart(stack, StackNeed(size), o, 2 * size)
    modifies mem
    ensures IsProduct(Slice(mem[..], o, 2 * size), old(Slice(mem[..], a, size)), old(Slice(mem[..], b, size)))
    ensures Frame(old(mem[..]), mem[..], o, 2 * size, stack, StackNeed(size))
    decreases size, 1, 0
  {
    hide BitOf, Product, IsProduct, Combined, XorAll, Xor, Frame, Slice;
    if size == 1 {
      ghost var m0 := mem[..];
      var lo, hi := BaseMul(mem[a], mem[b]);
      WordProduct(lo, hi, mem[a], mem[b]);
      mem[o] := lo;
      mem[o + 1] := hi;
      OneWord(m0, mem[..], o, a, b, lo, hi, stack);
    } else {
      var h, l := size / 2, (size + 1) / 2;
      assert size == l + h && StackNeed(size) == 4 * l + StackNeed(l);
      hide StackNeed;
      Split(mem, o, a, b, l, h, stack);
    }
  }

  /** The recursive case, for a vector of l + h words. */
  method Split(mem: array<Word>, o: nat, a: nat, b: nat, l: nat, h: nat, stack: nat)
    requires 1 <= h <= l <= h + 1
    requires o + 2 * (l + h) <= mem.Length && a + (l + h) <= mem.Length && b + (l + h) <= mem.Length
    requires stack + 4 * l + StackNeed(l) <= mem.Length
    requires Apart(o, 2 * (l + h), a, l + h) && Apart(o, 2 * (l + h), b, l + h)
    requires Apart(stack, 4 * l + StackNeed(l), a, l + h) && Apart(stack, 4 * l + StackNeed(l), b, l + h)
    requires Apart(stack, 4 * l + StackNeed(l), o, 2 * (l + h))
    modifies mem
    ensures IsProduct(Slice(mem[..], o, 2 * (l + h)), old(Slice(mem[..], a, l + h)), old(Slice(mem[..], b, l + h)))
    ensures Frame(old(mem[..]), mem[..], o, 2 * (l + h), stack, 4 * l + StackNeed(l))
    decreases l + h, 0, 1
  {
    hide BitOf, Product, IsProduct, Combined, XorAll, Xor, Frame, StackNeed, Apart, Slice;
    ghost var m0, low, size := mem[..], StackNeed(l), l + h;
    var tmp1, tmp2, rest := stack + 2 * l, o + 2 * l, stack + 4 * l;
    Regions(o, a, b, size, l, stack, low);
    Halves(mem, o, a, b, l, h, rest);
    ghost var m1 := mem[..];
    FrameSlice(m0, m1, o, 2 * size, rest, low, a, size);
    FrameSlice(m0, m1, o, 2 * size, rest, low, b, size);
    Middle(mem, stack, a, b, l, h, rest);
    ghost var m2 := mem[..];
    FrameSlice(m1, m2, stack, 4 * l, rest, low, o, 2 * size);
    KaratsubaAdd2(mem, o, tmp1, tmp2, l, h);
    ghost var m3 := mem[..];
    Finish(m0, m1, m2, m3, o, a, b, tmp1, l, h);
    KaratsubaFrame(m0, m1, m2, m3, o, 2 * size, stack, l, low);
  }

  /** What the layout of the whole call says about its parts. */
  lemma Regions(o: nat, a: nat, b: nat, size: nat, l: nat, stack: nat, low: nat)
    requires Apart(o, 2 * size, a, size) && Apart(o, 2 * size, b, size)
    requires Apart(stack, 4 * l + low, a, size) && Apart(stack, 4 * l + low, b, size)
    requires Apart(stack, 4 * l + low, o, 2 * size)
    ensures Apart(stack + 4 * l, low, a, size) && Apart(stack + 4 * l, low, b, size) && Apart(stack + 4 * l, low, o, 2 * size)
    ensures Apart(a, size, o, 2 * size) && Apart(b, size, o, 2 * size)
    ensures Apart(a, size, stack + 4 * l, low) && Apart(b, size, stack + 4 * l, low)
    ensures Apart(o, 2 * size, stack, 4 * l) && Apart(o, 2 * size, stack + 4 * l, low)
    ensures Apart(o, 2 * size, stack + 2 * l, 2 * l)
  {}

  lemma KaratsubaFrame(m0: seq<Word>, m1: seq<Word>, m2: seq<Word>, m3: seq<Word>, o: nat, s: nat, t: nat, l: nat, low: nat)
    requires Frame(m0, m1, o, s, t + 4 * l, low) && Frame(m1, m2, t, 4 * l, t + 4 * l, low) && Frame(m2, m3, o, s, t + 2 * l, 2 * l)
    ensures Frame(m0, m3, o, s, t, 4 * l + low)
  {}

  lemma Finish(m0: seq<Word>, m1: seq<Word>, m2: seq<Word>, m3: seq<Word>, o: nat, a: nat, b: nat, t: nat, l: nat, h: nat)
    requires 1 <= h <= l <= h + 1 && |m0| == |m1| == |m2| == |m3|
    requires o + 2 * l + 2 * h <= |m0| && a + l + h <= |m0| && b + l + h <= |m0| && t + 2 * l <= |m0|
    requires Slice(m1, a, l + h) == Slice(m0, a, l + h) && Slice(m1, b, l + h) == Slice(m0, b, l + h)
    requires Slice(m2, o, 2 * (l + h)) == Slice(m1, o, 2 * (l + h))
    requires IsProduct(Slice(m1, o, 2 * l), Slice(m0, a, l), Slice(m0, b, l))
    requires IsProduct(Slice(m1, o + 2 * l, 2 * h), Slice(m0, a + l, h), Slice(m0, b + l, h))
    requires IsProduct(Slice(m2, t, 2 * l), XorAll(Slice(m1, a, l), Slice(m1, a + l, h)), XorAll(Slice(m1, b, l), Slice(m1, b + l, h)))
    requires Combined(Slice(m3, o, 2 * (l + h)), Slice(m2, o, 2 * l), Slice(m2, t, 2 * l), Slice(m2, o + 2 * l, 2 * h), l)
    ensures IsProduct(Slice(m3, o, 2 * (l + h)), Slice(m0, a, l + h), Slice(m0, b, l + h))
  {
    hide BitOf, Product, IsProduct, Combined, XorAll, Xor;
    var al, ah, bl, bh := Slice(m0, a, l), Slice(m0, a + l, h), Slice(m0, b, l), Slice(m0, b + l, h);
    SliceConcat(m0, a, l, h);
    SliceConcat(m0, b, l, h);
    SubSlice(m1, m0, a, l, h);
    SubSlice(m1, m0, b, l, h);
    SubSlice(m2, m1, o, 2 * l, 2 * h);
    CombinedIsProduct(Slice(m3, o, 2 * (l + h)), Slice(m2, o, 2 * l), Slice(m2, t, 2 * l), Slice(m2, o + 2 * l, 2 * h), al, ah, bl, bh);
  }

  lemma SliceConcat(m: seq<Word>, p: nat, l: nat, h: nat)
    requires p + l + h <= |m|
    ensures Slice(m, p, l + h) == Slice(m, p, l) + Slice(m, p + l, h)
  {}

  lemma SubSlice(x: seq<Word>, y: seq<Word>, p: nat, l: nat, h: nat)
    requires p + l + h <= |x| == |y| && Slice(x, p, l + h) == Slice(y, p, l + h)
    ensures Slice(x, p, l) == Slice(y, p, l) && Slice(x, p + l, h) == Slice(y, p + l, h)
  {
    assert x[p..p + l] == x[p..p + (l + h)][..l] && y[p..p + l] == y[p..p + (l + h)][..l];
    assert x[p + l..p + l + h] == x[p..p + (l + h)][l..] && y[p + l..p + l + h] == y[p..p + (l + h)][l..];
  }

  /** The products of the low halves and of the high halves, side by side in o. */
  method Halves(mem: array<Word>, o: nat, a: nat, b: nat, l: nat, h: nat, rest: nat)
    requires 1 <= h <= l <= h + 1
    requires o + 2 * (l + h) <= mem.Length && a + l + h <= mem.Length && b + l + h <= mem.Length
    requires rest + StackNeed(l) <= mem.Length
    requires Apart(o, 2 * (l + h), a, l + h) && Apart(o, 2 * (l + h), b, l + h)
    requires Apart(rest, StackNeed(l), a, l + h) && Apart(rest, StackNeed(l), b, l + h)
    requires Apart(rest, StackNeed(l), o, 2 * (l + h))
    modifies mem
    ensures IsProduct(Slice(mem[..], o, 2 * l), old(Slice(mem[..], a, l)), old(Slice(mem[..], b, l)))
    ensures IsProduct(Slice(mem[..], o + 2 * l, 2 * h), old(Slice(mem[..], a + l, h)), old(Slice(mem[..], b + l, h)))
    ensures Frame(old(mem[..]), mem[..], o, 2 * (l + h), rest, StackNeed(l))
    decreases l + h, 0, 0
  {
    hide BitOf, Product, IsProduct, Frame, StackNeed, Slice;
    ghost var m0, low, high := mem[..], StackNeed(l), StackNeed(h);
    StackMonotone(h, l);
    Karatsuba(mem, o, a, b, l, rest);
    ghost var m1 := mem[..];
    FrameSlice(m0, m1, o, 2 * l, rest, low, a + l, h);
    FrameSlice(m0, m1, o, 2 * l, rest, low, b + l, h);
    Karatsuba(mem, o + 2 * l, a + l, b + l, h, rest);
    ghost var m2 := mem[..];
    FrameSlice(m1, m2, o + 2 * l, 2 * h, rest, high, o, 2 * l);
    SameFrame(m0, o, 2 * (l + h), rest, low);
    FrameThen(m0, m0, m1, o, 2 * l, rest, low, o, 2 * (l + h), rest, low);
    FrameThen(m0, m1, m2, o + 2 * l, 2 * h, rest, high, o, 2 * (l + h), rest, low);
  }

  /** The product of the sums of the halves, in scratch memory. */
  method Middle(mem: array<Word>, stack: nat, a: nat, b: nat, l: nat, h: nat, rest: nat)
    requires 1 <= h <= l <= h + 1 && rest == stack + 4 * l
    requires a + l + h <= mem.Length && b + l + h <= mem.Length && rest + StackNeed(l) <= mem.Length
    requires Apart(stack, 4 * l + StackNeed(l), a, l + h) && Apart(stack, 4 * l + StackNeed(l), b, l + h)
    modifies mem
    ensures IsProduct(Slice(mem[..], stack + 2 * l, 2 * l), XorAll(old(Slice(mem[..], a, l)), old(Slice(mem[..], a + l, h))),
                      XorAll(old(Slice(mem[..], b, l)), old(Slice(mem[..], b + l, h))))
    ensures Frame(old(mem[..]), mem[..], stack, 4 * l, rest, StackNeed(l))
    decreases l + h, 0, 0
  {
    hide BitOf, Product, IsProduct, Frame, StackNeed, XorAll, Slice;
    ghost var m0, low := mem[..], StackNeed(l);
    KaratsubaAdd1(mem, stack, stack + l, a, b, l, h);
    ghost var m1 := mem[..];
    Karatsuba(mem, stack + 2 * l, stack, stack + l, l, rest);
    SameFrame(m0, stack, 4 * l, rest, low);
    FrameThen(m0, m0, m1, stack, 2 * l, stack, 0, stack, 4 * l, rest, low);
    FrameThen(m0, m1, mem[..], stack + 2 * l, 2 * l, rest, low, stack, 4 * l, rest, low);
  }

  lemma SameFrame(m: seq<Word>, o: nat, s: nat, t: nat, u: nat)
    ensures Frame(m, m, o, s, t, u)
  {}

  lemma WordProduct(lo: Word, hi: Word, x: Word, y: Word)
    requires forall n {:trigger BitOf([lo, hi], n)} :: BitOf([lo, hi], n) == Product([x], [y], n)
    ensures IsProduct([lo, hi], [x], [y])
  {
    hide BitOf, Product;
  }

  lemma OneWord(m0: seq<Word>, m1: seq<Word>, o: nat, a: nat, b: nat, lo: Word, hi: Word, stack: nat)
    requires o + 2 <= |m0| && a < |m0| && b < |m0| && m1 == m0[o := lo][o + 1 := hi]
    requires IsProduct([lo, hi], [m0[a]], [m0[b]])
    ensures IsProduct(Slice(m1, o, 2), Slice(m0, a, 1), Slice(m0, b, 1))
    ensures Frame(m0, m1, o, 2, stack, 0)
  {
    hide BitOf, Product;
    assert Slice(m0, a, 1) == [m0[a]] && Slice(m0, b, 1) == [m0[b]] && Slice(m1, o, 2) == [lo, hi];
  }
}
