/** reduce, vect_mul and vect_add: arithmetic in GF(2)[X] / (X^17669 - 1). */
module CyclicRing {
  import opened BinaryPolynomials
  import opened Words64
  import opened KaratsubaProduct

  /** PARAM_N and VEC_N_SIZE_64. */
  const N := 17669
  const WORDS := 277

  /** VEC_N_SIZE_BYTES: the bytes that the bits below X^N touch. */
  const VECTOR_BYTES := 2209

  type Vec = v: seq<Word> | |v| == WORDS witness seq(WORDS, i => Zero())

  /** No bit from X^N on. */
  ghost predicate Short(a: Vec) {
    forall k :: N <= k < BITS * WORDS ==> !BitOf(a, k)
  }

  /** The vector whose first N bits are those of f. */
  function Vector(f: int -> bool): (v: Vec) {
    seq(WORDS, i requires 0 <= i < WORDS => seq(BITS, j requires 0 <= j < BITS => BITS * i + j < N && f(BITS * i + j)))
  }

  lemma VectorBit(f: int -> bool, k: int)
    ensures BitOf(Vector(f), k) == (0 <= k < N && f(k))
  {
    if 0 <= k < BITS * WORDS {
      assert BITS * (k / BITS) + k % BITS == k;
    }
  }

  lemma VectorShort(f: int -> bool)
    ensures Short(Vector(f))
  {
    forall k | N <= k < BITS * WORDS ensures !BitOf(Vector(f), k) { VectorBit(f, k); }
  }

  lemma SameBits(a: Vec, b: Vec)
    requires forall k :: 0 <= k < BITS * WORDS ==> BitOf(a, k) == BitOf(b, k)
    ensures a == b
  {
    forall i | 0 <= i < WORDS
      ensures a[i] == b[i]
    {
      forall j | 0 <= j < BITS
        ensures a[i][j] == b[i][j]
      {
        var k := BITS * i + j;
        assert k / BITS == i && k % BITS == j;
        assert BitOf(a, k) == BitOf(b, k);
      }
      assert a[i] == b[i];
    }
  }

  lemma SameShort(a: Vec, b: Vec)
    requires Short(a) && Short(b)
    requires forall k :: 0 <= k < N ==> BitOf(a, k) == BitOf(b, k)
    ensures a == b
  {
    hide BitOf;
    SameBits(a, b);
  }

  // ---- the product

  /** b continued periodically. */
  function Periodic(b: Vec): int -> bool { (k: int) => BitOf(b, k % N) }

  lemma PeriodicAre(b: Vec, g: int -> bool)
    requires g == Periodic(b)
    ensures forall k {:trigger g(k)} :: g(k) == BitOf(b, k % N)
  {}

  /** The product modulo X^N - 1: coefficient k is the sum of a[i] * b[(k - i) mod N]. */
  ghost function Times(a: Vec, b: Vec): Vec {
    Vector((k: int) => Conv(Bits(a), N, Periodic(b), k))
  }

  lemma TimesBit(a: Vec, b: Vec, k: int)
    ensures BitOf(Times(a, b), k) == (0 <= k < N && Conv(Bits(a), N, Periodic(b), k))
    ensures Short(Times(a, b))
  {
    hide BitOf, Conv;
    VectorBit((j: int) => Conv(Bits(a), N, Periodic(b), j), k);
    VectorShort((j: int) => Conv(Bits(a), N, Periodic(b), j));
  }

  /** The product folded once at X^N, which is what the code computes. */
  function Folded(a: Vec, b: Vec): Vec {
    Vector((k: int) => Product(a, b, k) != Product(a, b, k + N))
  }

  /** For reduced operands folding once is the product modulo X^N - 1. */
  lemma FoldedIsTimes(a: Vec, b: Vec)
    requires Short(a) && Short(b)
    ensures Folded(a, b) == Times(a, b)
  {
    hide BitOf, Conv, Bits;
    var fold := (k: int) => Product(a, b, k) != Product(a, b, k + N);
    VectorShort(fold);
    TimesBit(a, b, 0);
    forall k | 0 <= k < N
      ensures BitOf(Folded(a, b), k) == BitOf(Times(a, b), k)
    {
      VectorBit(fold, k);
      TimesBit(a, b, k);
      FoldedBit(a, b, k);
    }
    SameShort(Folded(a, b), Times(a, b));
  }

  lemma FoldedBit(a: Vec, b: Vec, k: int)
    requires Short(a) && Short(b) && 0 <= k < N
    ensures (Product(a, b, k) != Product(a, b, k + N)) == Conv(Bits(a), N, Periodic(b), k)
  {
    hide BitOf, Conv, Bits, Periodic;
    var f, g := Bits(a), Bits(b);
    BitsAre(a, f);
    forall j {:trigger f(j)} | N <= j < BITS * WORDS ensures !f(j) { BitBeyond(a, j); }
    ConvTail(f, N, BITS * WORDS, g, k);
    ConvTail(f, N, BITS * WORDS, g, k + N);
    FoldedSum(f, b, k, g, Periodic(b), (j: int) => BitOf(b, j) != BitOf(b, j + N));
  }

  /** Within N of k the periodic sequence is b together with b one period earlier. */
  lemma FoldedSum(f: int -> bool, b: Vec, k: int, g: int -> bool, p: int -> bool, both: int -> bool)
    requires Short(b) && 0 <= k < N && g == Bits(b) && p == Periodic(b)
    requires forall j {:trigger both(j)} :: both(j) == (BitOf(b, j) != BitOf(b, j + N))
    ensures (Conv(f, N, g, k) != Conv(f, N, g, k + N)) == Conv(f, N, p, k)
  {
    hide BitOf, Conv, Bits, Periodic;
    BitsAre(b, g);
    forall j {:trigger both(j)} ensures both(j) == (g(j) != g(j - -N)) {
      assert j - -N == j + N;
    }
    ConvAddRight(f, N, both, g, g, -N, k);
    PeriodicAre(b, p);
    forall j {:trigger p(j)} | k - N < j <= k
      ensures p(j) == both(j)
    {
      if j >= 0 {
        BitBeyond(b, j + N);
      } else {
        BitOutside(b, j);
        ModBelow(j);
      }
    }
    ConvSame(f, f, N, p, both, k);
    assert k - -N == k + N;
  }

  lemma BitBeyond(b: Vec, k: int)
    requires Short(b) && k >= N
    ensures !BitOf(b, k)
  {
    if k >= BITS * WORDS { BitOutside(b, k); }
  }

  lemma ModBelow(j: int)
    requires -N <= j < 0
    ensures j % N == j + N
  {}

  // ---- laws of the ring

  lemma ModShift(n: int, i: int)
    ensures (n - i) % N == (n % N - i) % N
  {
    var q := n / N;
    assert n - i == N * q + (n % N - i);
    ModMultiple(n % N - i, q);
  }

  lemma ModMultiple(x: int, q: int)
    ensures (N * q + x) % N == x % N
  {
    assert N * q + x == N * (q + x / N) + x % N;
  }

  /** The periodic sequence of a product is the product with the periodic sequence. */
  lemma PeriodicTimes(a: Vec, b: Vec, p: int -> bool)
    requires p == Periodic(Times(a, b))
    ensures forall n {:trigger p(n)} :: p(n) == Conv(Bits(a), N, Periodic(b), n)
  {
    hide BitOf, Conv, Bits, Times;
    forall n {:trigger p(n)}
      ensures p(n) == Conv(Bits(a), N, Periodic(b), n)
    {
      TimesBit(a, b, n % N);
      ConvPeriod(Bits(a), N, b, n);
    }
  }

  lemma {:induction false} ConvPeriod(f: int -> bool, m: nat, b: Vec, n: int)
    ensures Conv(f, m, Periodic(b), n) == Conv(f, m, Periodic(b), n % N)
  {
    hide BitOf;
    if m > 0 {
      ConvPeriod(f, m - 1, b, n);
      ModShift(n, m - 1);
    }
  }

  /** a * (b * c) = b * (a * c). */
  lemma TimesExchange(a: Vec, b: Vec, c: Vec)
    ensures Times(a, Times(b, c)) == Times(b, Times(a, c))
  {
    hide BitOf, Conv, Bits, Times, Periodic;
    TimesBit(a, Times(b, c), 0);
    TimesBit(b, Times(a, c), 0);
    forall k | 0 <= k < N
      ensures BitOf(Times(a, Times(b, c)), k) == BitOf(Times(b, Times(a, c)), k)
    {
      TimesBit(a, Times(b, c), k);
      TimesBit(b, Times(a, c), k);
      var f, g, s := Bits(a), Bits(b), Periodic(c);
      ConvExchange(f, N, g, N, s, k);
      ConvOfProduct(f, b, c, k, j => Conv(g, N, s, j));
      ConvOfProduct(g, a, c, k, j => Conv(f, N, s, j));
    }
    SameShort(Times(a, Times(b, c)), Times(b, Times(a, c)));
  }

  lemma ConvOfProduct(f: int -> bool, b: Vec, c: Vec, k: int, t: int -> bool)
    requires forall j {:trigger t(j)} :: t(j) == Conv(Bits(b), N, Periodic(c), j)
    ensures Conv(f, N, Periodic(Times(b, c)), k) == Conv(f, N, t, k)
  {
    hide BitOf, Conv, Bits, Times, Periodic;
    var p := Periodic(Times(b, c));
    PeriodicTimes(b, c, p);
    ConvSame(f, f, N, p, t, k);
  }

  /** vect_add. */
  function Add(a: Vec, b: Vec): (c: Vec) { XorAll(a, b) }

  lemma AddBit(a: Vec, b: Vec, k: int)
    ensures BitOf(Add(a, b), k) == (BitOf(a, k) != BitOf(b, k))
  {
    BitXorAll(a, b, k);
  }

  lemma AddShort(a: Vec, b: Vec)
    requires Short(a) && Short(b)
    ensures Short(Add(a, b))
  {
    hide BitOf;
    forall k | N <= k < BITS * WORDS ensures !BitOf(Add(a, b), k) { AddBit(a, b, k); }
  }

  /** a * (b + c) = a * b + a * c. */
  lemma TimesAdd(a: Vec, b: Vec, c: Vec)
    ensures Times(a, Add(b, c)) == Add(Times(a, b), Times(a, c))
  {
    hide BitOf, Conv, Bits, Times, Periodic, Add;
    TimesBit(a, Add(b, c), 0);
    TimesBit(a, b, 0);
    TimesBit(a, c, 0);
    AddShort(Times(a, b), Times(a, c));
    forall k | 0 <= k < N
      ensures BitOf(Times(a, Add(b, c)), k) == BitOf(Add(Times(a, b), Times(a, c)), k)
    {
      TimesBit(a, Add(b, c), k);
      TimesBit(a, b, k);
      TimesBit(a, c, k);
      AddBit(Times(a, b), Times(a, c), k);
      var g, g1, g2 := Periodic(Add(b, c)), Periodic(b), Periodic(c);
      PeriodicAre(Add(b, c), g);
      PeriodicAre(b, g1);
      PeriodicAre(c, g2);
      forall j {:trigger g(j)} ensures g(j) == (g1(j) != g2(j - 0)) { AddBit(b, c, j % N); }
      ConvAddRight(Bits(a), N, g, g1, g2, 0, k);
    }
    SameShort(Times(a, Add(b, c)), Add(Times(a, b), Times(a, c)));
  }

  /** The constant 1. */
  function One(): (v: Vec) { Vector((k: int) => k == 0) }

  lemma TimesOne(a: Vec)
    requires Short(a)
    ensures Times(a, One()) == a
  {
    hide BitOf, Conv, Bits, Times, Periodic;
    TimesBit(a, One(), 0);
    forall k | 0 <= k < N
      ensures BitOf(Times(a, One()), k) == BitOf(a, k)
    {
      TimesBit(a, One(), k);
      var p, d := Periodic(One()), (j: int) => j == 0;
      PeriodicAre(One(), p);
      forall j {:trigger p(j)} | k - N < j <= k ensures p(j) == d(j) {
        VectorBit((i: int) => i == 0, j % N);
        if j < 0 { ModBelow(j); }
      }
      ConvSame(Bits(a), Bits(a), N, p, d, k);
      ConvMonomial(Bits(a), N, d, 0, k);
      assert Bits(a)(k - 0) == BitOf(a, k) by { BitsAre(a, Bits(a)); }
    }
    SameShort(Times(a, One()), a);
  }

  lemma TimesComm(a: Vec, b: Vec)
    requires Short(a) && Short(b)
    ensures Times(a, b) == Times(b, a)
  {
    hide Times, One;
    TimesOne(a);
    TimesOne(b);
    TimesExchange(a, b, One());
  }

  // ---- the methods

  /** reduce: the words of a folded at X^N. */
  method Reduce(a: seq<Word>) returns (o: Vec)
    requires |a| == 2 * WORDS + 1
    ensures forall k {:trigger BitOf(o, k)} :: 0 <= k < BITS * WORDS ==> BitOf(o, k) == (k < N && (BitOf(a, k) != BitOf(a, k + N)))
  {
    hide Xor, Shl, Shr, LowMask, BitOf;
    var r: seq<Word> := [];
    var i := 0;
    while i < WORDS
      invariant 0 <= i <= WORDS && |r| == i
      invariant forall j :: 0 <= j < i ==> r[j] == Xor(Xor(a[j], Shr(a[j + WORDS - 1], 5)), Shl(a[j + WORDS], 59))
    {
      r := r + [Xor(Xor(a[i], Shr(a[i + WORDS - 1], 5)), Shl(a[i + WORDS], 59))];
      i := i + 1;
    }
    o := r[WORDS - 1 := LowMask(r[WORDS - 1], 5)];
    ReducedBits(a, o, r);
  }

  lemma ReducedBits(a: seq<Word>, o: Vec, r: seq<Word>)
    requires |a| == 2 * WORDS + 1 && |r| == WORDS
    requires forall j :: 0 <= j < WORDS ==> r[j] == Xor(Xor(a[j], Shr(a[j + WORDS - 1], 5)), Shl(a[j + WORDS], 59))
    requires o == r[WORDS - 1 := LowMask(r[WORDS - 1], 5)]
    ensures forall k {:trigger BitOf(o, k)} :: 0 <= k < BITS * WORDS ==> BitOf(o, k) == (k < N && (BitOf(a, k) != BitOf(a, k + N)))
  {
    hide Xor, Shl, Shr, LowMask, BitOf;
    forall k {:trigger BitOf(o, k)} | 0 <= k < BITS * WORDS
      ensures BitOf(o, k) == (k < N && (BitOf(a, k) != BitOf(a, k + N)))
    {
      ReducedBit(a, o, r, k);
    }
  }

  lemma ReducedBit(a: seq<Word>, o: Vec, r: seq<Word>, k: int)
    requires |a| == 2 * WORDS + 1 && |r| == WORDS && 0 <= k < BITS * WORDS
    requires forall j :: 0 <= j < WORDS ==> r[j] == Xor(Xor(a[j], Shr(a[j + WORDS - 1], 5)), Shl(a[j + WORDS], 59))
    requires o == r[WORDS - 1 := LowMask(r[WORDS - 1], 5)]
    ensures BitOf(o, k) == (k < N && (BitOf(a, k) != BitOf(a, k + N)))
  {
    var i, j := k / BITS, k % BITS;
    assert k == BITS * i + j;
    assert r[i] == Xor(Xor(a[i], Shr(a[i + WORDS - 1], 5)), Shl(a[i + WORDS], 59));
    if j < 59 {
      ShiftedIndex(k + N, i + WORDS - 1, j + 5);
    } else {
      ShiftedIndex(k + N, i + WORDS, j - 59);
    }
    assert i == WORDS - 1 ==> (j < 5 <==> k < N);
  }

  lemma ShiftedIndex(k: int, i: int, j: int)
    requires k == BITS * i + j && 0 <= j < BITS
    ensures k / BITS == i && k % BITS == j
  {}

  /** The factors, then zeros. */
  function Layout(a1: Vec, a2: Vec, i: nat): (w: Word) {
    if i < WORDS then a1[i] else if i < 2 * WORDS then a2[i - WORDS] else Zero()
  }

  /** vect_mul: both factors, the double-length product and the scratch words laid out in one memory. */
  method VectMul(a1: Vec, a2: Vec) returns (o: Vec)
    ensures o == Folded(a1, a2)
    ensures Short(a1) && Short(a2) ==> o == Times(a1, a2)
  {
    hide BitOf, Product, IsProduct, Frame, StackNeed, Folded, Times, Short;
    StackBound(WORDS);
    var size := 12 * WORDS + 1;
    var mem := new Word[size](i requires 0 <= i < size => Layout(a1, a2, i));
    ghost var m0 := mem[..];
    assert Slice(m0, 0, WORDS) == a1;
    assert Slice(m0, WORDS, WORDS) == a2;
    Karatsuba(mem, 2 * WORDS, 0, WORDS, WORDS, 4 * WORDS + 1);
    ghost var m1 := mem[..];
    assert m1[4 * WORDS] == Zero() by { Untouched(m0, m1); }
    var product := mem[2 * WORDS..4 * WORDS + 1];
    o := Reduce(product);
    ProductWords(product, Slice(m1, 2 * WORDS, 2 * WORDS), a1, a2) by {
      assert product == Slice(m1, 2 * WORDS, 2 * WORDS) + [Zero()];
    }
    ReducedIsFolded(product, o, a1, a2);
    if Short(a1) && Short(a2) { FoldedIsTimes(a1, a2); }
  }

  lemma Untouched(m0: seq<Word>, m1: seq<Word>)
    requires |m0| == 12 * WORDS + 1 && m0[4 * WORDS] == Zero()
    requires Frame(m0, m1, 2 * WORDS, 2 * WORDS, 4 * WORDS + 1, StackNeed(WORDS))
    ensures |m1| == |m0| && m1[4 * WORDS] == Zero()
  {
    hide StackNeed;
  }

  lemma ProductWords(p: seq<Word>, r: seq<Word>, a: Vec, b: Vec)
    requires p == r + [Zero()] && IsProduct(r, a, b)
    ensures forall n {:trigger BitOf(p, n)} :: BitOf(p, n) == Product(a, b, n)
  {
    hide Product;
    forall n {:trigger BitOf(p, n)}
      ensures BitOf(p, n) == Product(a, b, n)
    {
      BitConcat(r, [Zero()], n);
      assert BitOf(r, n) == Product(a, b, n);
      ZeroBits(n - BITS * |r|);
    }
  }

  lemma ZeroBits(k: int)
    ensures !BitOf([Zero()], k)
  {}

  lemma ReducedIsFolded(p: seq<Word>, o: Vec, a: Vec, b: Vec)
    requires |p| == 2 * WORDS + 1
    requires forall n {:trigger BitOf(p, n)} :: BitOf(p, n) == Product(a, b, n)
    requires forall k {:trigger BitOf(o, k)} :: 0 <= k < BITS * WORDS ==> BitOf(o, k) == (k < N && (BitOf(p, k) != BitOf(p, k + N)))
    ensures o == Folded(a, b)
  {
    hide BitOf, Product;
    FoldedVector(p, o, a, b, (k: int) => Product(a, b, k) != Product(a, b, k + N));
  }

  lemma FoldedVector(p: seq<Word>, o: Vec, a: Vec, b: Vec, fold: int -> bool)
    requires |p| == 2 * WORDS + 1
    requires forall n {:trigger BitOf(p, n)} :: BitOf(p, n) == Product(a, b, n)
    requires forall k {:trigger BitOf(o, k)} :: 0 <= k < BITS * WORDS ==> BitOf(o, k) == (k < N && (BitOf(p, k) != BitOf(p, k + N)))
    requires forall k {:trigger fold(k)} :: fold(k) == (Product(a, b, k) != Product(a, b, k + N))
    ensures o == Vector(fold)
  {
    hide BitOf, Product;
    forall k | 0 <= k < BITS * WORDS
      ensures BitOf(o, k) == BitOf(Vector(fold), k)
    {
      VectorBit(fold, k);
      assert BitOf(p, k) == Product(a, b, k) && BitOf(p, k + N) == Product(a, b, k + N);
    }
    SameBits(o, Vector(fold));
  }

  method VectAdd(v1: Vec, v2: Vec) returns (o: Vec)
    ensures o == Add(v1, v2)
  {
    hide Xor;
    var r: seq<Word> := [];
    var i := 0;
    while i < WORDS
      invariant 0 <= i <= WORDS && |r| == i
      invariant forall j :: 0 <= j < i ==> r[j] == Xor(v1[j], v2[j])
    {
      r := r + [Xor(v1[i], v2[i])];
      i := i + 1;
    }
    o := r;
  }
}
