/** 64-bit words given by their bits, and vectors of words as binary polynomials. */
module Words64 {
  import opened BinaryPolynomials

  const BITS := 64

  /** A uint64_t; entry k is the bit of weight 2^k. */
  type Word = w: seq<bool> | |w| == BITS witness seq(BITS, k => false)

  function Zero(): (w: Word) { seq(BITS, k => false) }

  function Xor(x: Word, y: Word): (w: Word) {
    seq(BITS, k requires 0 <= k < BITS => x[k] != y[k])
  }

  function Shl(x: Word, i: nat): (w: Word) {
    seq(BITS, k requires 0 <= k < BITS => k >= i && x[k - i])
  }

  function Shr(x: Word, i: nat): (w: Word) {
    seq(BITS, k requires 0 <= k < BITS => k + i < BITS && x[k + i])
  }

  /** x & ((1 << n) - 1). */
  function LowMask(x: Word, n: nat): (w: Word) {
    seq(BITS, k requires 0 <= k < BITS => k < n && x[k])
  }

  /** x & -c for a single bit c. */
  function MaskIf(c: bool, x: Word): (w: Word) { if c then x else Zero() }

  /** Bit k of a vector of words, false outside. */
  predicate BitOf(a: seq<Word>, k: int) {
    0 <= k < BITS * |a| && a[k / BITS][k % BITS]
  }

  function Bits(a: seq<Word>): int -> bool { (k: int) => BitOf(a, k) }

  /** Coefficient n of the product of two vectors as binary polynomials. */
  predicate Product(a: seq<Word>, b: seq<Word>, n: int) {
    Conv(Bits(a), BITS * |a|, Bits(b), n)
  }

  lemma BitsAre(a: seq<Word>, f: int -> bool)
    requires f == Bits(a)
    ensures forall k {:trigger f(k)} :: f(k) == BitOf(a, k)
  {}

  lemma BitConcat(a: seq<Word>, b: seq<Word>, k: int)
    ensures BitOf(a + b, k) == if k < BITS * |a| then BitOf(a, k) else BitOf(b, k - BITS * |a|)
    ensures k < BITS * |a| ==> !BitOf(b, k - BITS * |a|)
    ensures k >= BITS * |a| ==> !BitOf(a, k)
  {
    if k >= BITS * |a| && k < BITS * |a + b| {
      ShiftIndex(k, |a|);
    }
  }

  lemma ShiftIndex(k: int, m: nat)
    ensures k / BITS == (k - BITS * m) / BITS + m && k % BITS == (k - BITS * m) % BITS
  {}

  /** The word-wise sum, the shorter vector read as zero beyond its end. */
  function XorAll(a: seq<Word>, b: seq<Word>): (c: seq<Word>)
    requires |b| <= |a|
    ensures |c| == |a|
  {
    seq(|a|, i requires 0 <= i < |a| => if i < |b| then Xor(a[i], b[i]) else a[i])
  }

  lemma BitXorAll(a: seq<Word>, b: seq<Word>, k: int)
    requires |b| <= |a|
    ensures BitOf(XorAll(a, b), k) == (BitOf(a, k) != BitOf(b, k))
  {}

  // ---- products of vectors

  lemma ProductXorLeft(a: seq<Word>, a': seq<Word>, b: seq<Word>, n: int)
    requires |a'| <= |a|
    ensures Product(XorAll(a, a'), b, n) == (Product(a, b, n) != Product(a', b, n))
  {
    hide BitOf, Conv, Bits, XorAll;
    var f, f1, f2, g := Bits(XorAll(a, a')), Bits(a), Bits(a'), Bits(b);
    BitsAre(XorAll(a, a'), f); BitsAre(a, f1); BitsAre(a', f2);
    forall k {:trigger f(k)} | 0 <= k < BITS * |a| ensures f(k) == (f1(k) != f2(k)) { BitXorAll(a, a', k); }
    ConvAddLeft(f, f1, f2, BITS * |a|, g, n);
    forall k {:trigger f2(k)} | BITS * |a'| <= k ensures !f2(k) { BitOutside(a', k); }
    ConvTail(f2, BITS * |a'|, BITS * |a|, g, n);
  }

  lemma BitOutside(a: seq<Word>, k: int)
    requires k < 0 || k >= BITS * |a|
    ensures !BitOf(a, k)
  {}

  lemma ProductXorRight(a: seq<Word>, b: seq<Word>, b': seq<Word>, n: int)
    requires |b'| <= |b|
    ensures Product(a, XorAll(b, b'), n) == (Product(a, b, n) != Product(a, b', n))
  {
    hide BitOf, Conv, Bits, XorAll;
    var f, g, g1, g2 := Bits(a), Bits(XorAll(b, b')), Bits(b), Bits(b');
    BitsAre(XorAll(b, b'), g); BitsAre(b, g1); BitsAre(b', g2);
    forall k {:trigger g(k)} ensures g(k) == (g1(k) != g2(k - 0)) { BitXorAll(b, b', k); }
    ConvAddRight(f, BITS * |a|, g, g1, g2, 0, n);
  }

  lemma ProductSplitLeft(a: seq<Word>, a': seq<Word>, b: seq<Word>, n: int)
    ensures Product(a + a', b, n) == (Product(a, b, n) != Product(a', b, n - BITS * |a|))
  {
    hide BitOf, Conv, Bits;
    var f, low, high, g := Bits(a + a'), Bits(a), Bits(a'), Bits(b);
    var m, h := BITS * |a|, BITS * |a'|;
    BitsAre(a + a', f); BitsAre(a, low); BitsAre(a', high);
    forall k {:trigger f(k)} | 0 <= k < m ensures f(k) == low(k) { BitConcat(a, a', k); }
    forall k {:trigger high(k)} | 0 <= k < h ensures f(m + k) == high(k) { BitConcat(a, a', m + k); }
    ConvSplit(f, low, high, m, h, g, n);
    assert BITS * |a + a'| == m + h;
  }

  lemma ProductSplitRight(a: seq<Word>, b: seq<Word>, b': seq<Word>, n: int)
    ensures Product(a, b + b', n) == (Product(a, b, n) != Product(a, b', n - BITS * |b|))
  {
    hide BitOf, Conv, Bits;
    var f, g, g1, g2 := Bits(a), Bits(b + b'), Bits(b), Bits(b');
    var d := BITS * |b|;
    BitsAre(b + b', g); BitsAre(b, g1); BitsAre(b', g2);
    forall k {:trigger g(k)} ensures g(k) == (g1(k) != g2(k - d)) { BitConcat(b, b', k); }
    ConvAddRight(f, BITS * |a|, g, g1, g2, d, n);
  }
}
