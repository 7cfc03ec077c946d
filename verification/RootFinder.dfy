/** gf_generate, fft, fft_retrieve_error_poly and compute_roots: the error positions are the inverse roots. */
module RootFinder {
  import opened Gf256
  import opened GfArithmetic
  import opened Polynomials
  import opened PowerSums
  import opened RadixConversion
  import opened AdditiveFft

  // ---- the logarithm table

  /** log is a table of the discrete logarithms to the base alpha. */
  ghost predicate LogTable(log: seq<nat>) {
    |log| == 256 && forall i :: 0 <= i < 255 ==> log[Index(Alpha(i))] == i
  }

  lemma IndexBound(a: Elt)
    ensures Index(a) < 256
  {}

  lemma LogValue(log: seq<nat>, a: Elt)
    requires LogTable(log) && a != ZERO
    ensures Index(a) < 256 && log[Index(a)] < 255 && Alpha(log[Index(a)]) == a
  {
    hide Shifted, Index;
    IndexBound(a);
    var i := Logarithm(a);
  }

  /** One multiplication by alpha in sixteen bits, reduced when the ninth bit appears. */
  function NextPower(elt: bv16): bv16 {
    var e := elt * 2;
    if e >= 0x100 then e ^ 0x11D else e
  }

  lemma NextPowerXtime(a: Elt)
    ensures NextPower(a.v as bv16) == Xtime(a).v as bv16
  {}

  method GfGenerate() returns (exp: seq<Elt>, log: seq<nat>)
    ensures |exp| == 258 && forall i :: 0 <= i < 258 ==> exp[i] == Alpha(i)
    ensures LogTable(log) && log[0] == 0
  {
    hide Mul, Xtime, Index, NextPower;
    var e := new Elt[258](i => ZERO);
    var l := new nat[256](i => 0);
    var elt: bv16 := 1;
    var i := 0;
    while i < 255
      invariant 0 <= i <= 255
      invariant elt == Alpha(i).v as bv16
      invariant forall j :: 0 <= j < i ==> e[j] == Alpha(j)
      invariant forall j :: 0 <= j < i ==> Index(Alpha(j)) < 256 && l[Index(Alpha(j))] == j
      invariant l[0] == 0
    {
      var a := Elt(elt as bv8);
      assert a == Alpha(i);
      e[i] := a;
      IndexBound(a);
      forall j | 0 <= j < i ensures Index(Alpha(j)) != Index(a) {
        IndexInjective(Alpha(j), a);
        if Alpha(j) == a { AlphaInjective(j, i); }
      }
      AlphaNonzero(i);
      IndexZero(a);
      l[Index(a)] := i;
      NextPowerXtime(a);
      elt := NextPower(elt);
      i := i + 1;
    }
    AlphaValues();
    e[255] := ONE;
    e[256] := Elt(2);
    e[257] := Elt(4);
    assert Alpha(256) == Elt(2) && Alpha(257) == Elt(4) by { FirstPowers(); }
    exp, log := e[..], l[..];
  }

  lemma IndexZero(a: Elt)
    ensures Index(a) == 0 <==> a == ZERO
  {}

  lemma FirstPowers()
    ensures Alpha(256) == Elt(2) && Alpha(257) == Elt(4)
  {
    hide Mul;
    AlphaValues();
    assert Shifted(ONE, 256) == Xtime(Shifted(ONE, 255));
    assert Shifted(ONE, 257) == Xtime(Shifted(ONE, 256));
  }

  // ---- the 256 evaluation points

  /** The basis 2^7, 2^6, .., 2, 1; compute_fft_betas gives all but the last. */
  function Basis(): (b: seq<Elt>)
    ensures |b| == 8
  {
    seq(8, i requires 0 <= i < 8 => Elt(Mask(7 - i)))
  }

  lemma {:induction false} SumBits(m: nat, i: nat, j: nat)
    requires m <= 8 && i < Pow2(m) && j < 8
    ensures j < 8 - m ==> !Bit(SubsetSum(Basis()[..m], i), j)
    ensures m > 0 && j == 8 - m ==> (Bit(SubsetSum(Basis()[..m], i), j) <==> i >= Pow2(m - 1))
  {
    hide Add, Bit, Mask, Basis;
    if m == 0 {
      ZeroBits(j);
    } else {
      var b := Basis();
      var r := if i < Pow2(m - 1) then i else i - Pow2(m - 1);
      SumBits(m - 1, r, j);
      SubsetSumTop(b, m - 1, r);
      BasisBits(m - 1, j);
      BitAdd(b[m - 1], SubsetSum(b[..m - 1], r), j);
    }
  }

  lemma ZeroBits(j: nat)
    requires j < 8
    ensures !Bit(ZERO, j)
  {}

  lemma BasisBits(k: nat, j: nat)
    requires k < 8 && j < 8
    ensures Bit(Basis()[k], j) <==> j == 7 - k
  {}

  lemma {:induction false} SumInjective(m: nat, i: nat, j: nat)
    requires m <= 8 && i < Pow2(m) && j < Pow2(m)
    requires SubsetSum(Basis()[..m], i) == SubsetSum(Basis()[..m], j)
    ensures i == j
  {
    hide Add, Bit, Mask, Basis, SubsetSum;
    if m > 0 {
      var b := Basis();
      SumBits(m, i, 8 - m);
      SumBits(m, j, 8 - m);
      var r, s := if i < Pow2(m - 1) then i else i - Pow2(m - 1), if j < Pow2(m - 1) then j else j - Pow2(m - 1);
      SubsetSumTop(b, m - 1, r);
      SubsetSumTop(b, m - 1, s);
      AddCancel(SubsetSum(b[..m - 1], r), b[m - 1]);
      AddCancel(SubsetSum(b[..m - 1], s), b[m - 1]);
      assert i >= Pow2(m - 1) ==> Add(b[m - 1], Add(b[m - 1], SubsetSum(b[..m - 1], r))) == SubsetSum(b[..m - 1], r);
      SumInjective(m - 1, r, s);
    }
  }

  lemma {:induction false} SumOnto(m: nat, a: Elt) returns (i: nat)
    requires m <= 8 && forall j :: 0 <= j < 8 - m ==> !Bit(a, j)
    ensures i < Pow2(m) && SubsetSum(Basis()[..m], i) == a
  {
    hide Add, Bit, Mask, Basis, SubsetSum;
    if m == 0 {
      i := 0;
      NoBits(a);
      SubsetSumZero(Basis()[..0]);
    } else {
      var b := Basis();
      var c := if Bit(a, 8 - m) then Add(b[m - 1], a) else a;
      forall j | 0 <= j < 9 - m
        ensures !Bit(c, j)
      {
        BasisBits(m - 1, j);
        BitAdd(b[m - 1], a, j);
      }
      i := SumOnto(m - 1, c);
      SubsetSumTop(b, m - 1, i);
      if Bit(a, 8 - m) {
        AddCancel(a, b[m - 1]);
        i := Pow2(m - 1) + i;
      }
    }
  }

  lemma NoBits(a: Elt)
    requires forall j :: 0 <= j < 8 ==> !Bit(a, j)
    ensures a == ZERO
  {
    assert !Bit(a, 0) && !Bit(a, 1) && !Bit(a, 2) && !Bit(a, 3) && !Bit(a, 4) && !Bit(a, 5) && !Bit(a, 6) && !Bit(a, 7);
  }

  /** The point at which entry t of the output of fft is evaluated. */
  function Point(t: nat): Elt
    requires t < 256
  {
    Pow2Eight();
    SubsetSum(Basis(), t)
  }

  lemma Pow2Eight()
    ensures Pow2(8) == 256 && Pow2(7) == 128
  {
    assert Pow2(4) == 16;
  }

  lemma SlotExists(a: Elt) returns (t: nat)
    ensures t < 256 && Point(t) == a
  {
    hide Basis, SubsetSum, Bit;
    Pow2Eight();
    t := SumOnto(8, a);
    assert Basis()[..8] == Basis();
  }

  lemma PointInjective(t: nat, u: nat)
    requires t < 256 && u < 256 && Point(t) == Point(u)
    ensures t == u
  {
    hide Basis, SubsetSum;
    Pow2Eight();
    assert Basis()[..8] == Basis();
    SumInjective(8, t, u);
  }

  /** The 256 points are the 256 elements, each exactly once. */
  ghost function Slot(a: Elt): (t: nat)
    ensures t < 256 && Point(t) == a
    ensures forall u :: 0 <= u < 256 && Point(u) == a ==> u == t
  {
    assert exists t: nat :: t < 256 && Point(t) == a by { var t := SlotExists(a); }
    var t: nat :| t < 256 && Point(t) == a;
    assert forall u :: 0 <= u < 256 && Point(u) == a ==> u == t by {
      forall u: nat | u < 256 && Point(u) == a ensures u == t { PointInjective(t, u); }
    }
    t
  }

  // ---- fft

  /** compute_fft_betas: 2^7 down to 2. */
  method ComputeFftBetas() returns (betas: seq<Elt>)
    ensures betas == Basis()[..7]
  {
    hide Mask;
    betas := [];
    var i := 0;
    while i < 7
      invariant 0 <= i <= 7 && betas == Basis()[..i]
    {
      betas := betas + [Elt(Mask(7 - i))];
      i := i + 1;
    }
  }

  lemma BasisIndependent()
    ensures Independent(Basis()) && Basis()[7] == ONE
  {
    hide SubsetSum, Bit;
    Pow2Eight();
    var b := Basis();
    assert b[..8] == b;
    SubsetSumZero(b);
    forall i | 0 < i < 256
      ensures SubsetSum(b, i) != ZERO
    {
      if SubsetSum(b, i) == ZERO { SumInjective(8, i, 0); }
    }
  }

  lemma BasisReduced(gammas: seq<Elt>, deltas: seq<Elt>)
    requires gammas == Basis()[..7] && |deltas| == 7
    requires forall j :: 0 <= j < 7 ==> deltas[j] == Artin(gammas[j])
    ensures Reduced(Basis(), gammas, deltas)
  {
    hide Mul, Add, Artin, Inverse;
    BasisIndependent();
    InverseOne();
    forall j | 0 <= j < 7
      ensures gammas[j] == Mul(Basis()[j], Inverse(ONE))
    {
      MulOne(Basis()[j]);
    }
  }

  lemma InverseOne()
    ensures Inverse(ONE) == ONE
  {
    hide Mul, Inverse;
    InverseCorrect(ONE);
    MulOne(Inverse(ONE));
    OneIsNotZero();
  }

  /** fft evaluates a polynomial of 16 coefficients at all 256 points. */
  method Fft(w: array<Elt>, f: array<Elt>)
    requires w.Length == 256 && f.Length == 16 && w != f
    modifies w
    ensures forall t :: 0 <= t < 256 ==> w[t] == Value(f[..], Point(t))
  {
    hide Add, Mul, Inverse, Artin, Value, Radix, SubsetSum, Independent, Reduced, Power, Basis;
    Pow2Eight();
    assert Pow2(4) == 16;
    var betas := ComputeFftBetas();
    var deltas := [];
    var i := 0;
    while i < 7
      invariant 0 <= i <= 7 && |deltas| == i
      invariant forall j :: 0 <= j < i ==> deltas[j] == Artin(betas[j])
    {
      deltas := deltas + [Artin(betas[i])];
      i := i + 1;
    }
    BasisReduced(betas, deltas);
    BasisIndependent();
    ReducedIndependent(Basis(), betas, deltas);
    var u, v, sums := Halves(f, 4, betas, deltas);
    SubsetSumZero(betas);
    Butterfly(w, u, v, sums);
    ghost var p := f[..16];
    PowerZeroTwist(p);
    assert p == f[..];
    RecursionValues(w[..2 * |u|], u, v, sums, p, p, 4, Basis(), betas, deltas);
  }

  lemma PowerZeroTwist(p: Poly)
    ensures forall i :: 0 <= i < |p| ==> p[i] == Mul(Power(ONE, i), p[i])
  {
    hide Mul, Power;
    forall i | 0 <= i < |p|
      ensures p[i] == Mul(Power(ONE, i), p[i])
    {
      PowerOfOne(i);
      MulOne(p[i]);
    }
  }

  // ---- fft_retrieve_error_poly

  /** 1 ^ ((uint16_t) -a >> 15). */
  function ZeroTest(a: Elt): bv8 {
    1 ^ (((0 - (a.v as bv16)) >> 15) as bv8)
  }

  lemma ZeroTestCorrect(a: Elt)
    ensures ZeroTest(a) == if a == ZERO then 1 else 0
  {}

  /** The position that belongs to a nonzero element: its inverse is alpha to that power. */
  ghost predicate At(p: nat, a: Elt) { 1 <= p < 255 && Alpha(255 - p) == a }

  lemma PositionOf(log: seq<nat>, a: Elt)
    requires LogTable(log) && a != ZERO && a != ONE
    ensures Index(a) < 256 && log[Index(a)] < 255 && At(255 - log[Index(a)], a)
  {
    hide Shifted, Index;
    LogValue(log, a);
    AlphaOrder(0);
  }

  /** The entry of w that belongs to position p. */
  ghost function SlotAt(p: nat): (t: nat)
    requires p <= 255
    ensures t < 256 && Point(t) == Alpha(255 - p)
  {
    Slot(Alpha(255 - p))
  }

  /** Positions whose point comes before entry i of either half of w hold their flag, the others are clear. */
  ghost predicate Retrieved(error: seq<bv8>, w: seq<Elt>, i: nat)
    requires |error| == |w| == 256
  {
    forall p :: 1 <= p < 255 ==> error[p] == if SlotAt(p) % 128 < i then ZeroTest(w[SlotAt(p)]) else 0
  }

  lemma Pos(t: nat)
    requires t < 256
    ensures Point(t) == ZERO <==> t == 0
    ensures Point(t) == ONE <==> t == 128
    ensures t < 128 ==> Point(t + 128) == Add(Point(t), ONE)
  {
    hide SubsetSum, Basis, Slot, Add;
    Pow2Eight();
    var b := Basis();
    SubsetSumZero(b);
    BasisIndependent();
    assert b[..8] == b;
    SubsetSumTop(b, 7, 0);
    SubsetSumZero(b[..7]);
    AddZero(ONE);
    if t < 128 { SubsetSumTop(b, 7, t); AddComm(ONE, Point(t)); }
    if Point(t) == ZERO { PointInjective(t, 0); }
    if Point(t) == ONE { PointInjective(t, 128); }
  }

  lemma RetrieveStep(e0: seq<bv8>, e1: seq<bv8>, w: seq<Elt>, i: nat, p: nat, q: nat)
    requires |e0| == |e1| == |w| == 256 && 1 <= i < 128
    requires Retrieved(e0, w, i)
    requires At(p, Point(i)) && At(q, Point(128 + i))
    requires e1 == e0[p := e0[p] ^ ZeroTest(w[i])][q := e0[q] ^ ZeroTest(w[128 + i])]
    ensures Retrieved(e1, w, i + 1)
  {
    hide Shifted, Point, ZeroTest, SlotAt;
    PointInjectiveIf(i, 128 + i);
    assert p != q;
    forall r | 1 <= r < 255
      ensures e1[r] == if SlotAt(r) % 128 < i + 1 then ZeroTest(w[SlotAt(r)]) else 0
    {
      SlotOf(r, p, i);
      SlotOf(r, q, 128 + i);
      assert e0[r] == if SlotAt(r) % 128 < i then ZeroTest(w[SlotAt(r)]) else 0;
      XorZeroLeft(ZeroTest(w[SlotAt(r)]));
    }
  }

  /** Entry t of w belongs to position p and to no other. */
  lemma SlotOf(r: nat, p: nat, t: nat)
    requires 1 <= r < 255 && t < 256 && At(p, Point(t))
    ensures SlotAt(r) == t <==> r == p
  {
    hide Shifted, Point, SlotAt;
    if r == p { PointInjective(SlotAt(r), t); }
    if SlotAt(r) == t { AlphaInjective(255 - r, 255 - p); }
  }

  lemma XorZeroLeft(b: bv8)
    ensures 0 ^ b == b
  {}

  method MarkRoot(error: array<bv8>, log: seq<nat>, a: Elt, value: Elt) returns (ghost p: nat)
    requires error.Length == 256 && LogTable(log) && a != ZERO && a != ONE
    modifies error
    ensures At(p, a) && p < 256
    ensures error[..] == old(error[..])[p := old(error[p]) ^ ZeroTest(value)]
  {
    hide Index, ZeroTest, Shifted;
    PositionOf(log, a);
    var index := 255 - log[Index(a)];
    error[index] := error[index] ^ ZeroTest(value);
    p := index;
  }

  method FftRetrieveErrorPoly(error: array<bv8>, w: seq<Elt>, log: seq<nat>)
    requires error.Length == 256 && |w| == 256 && LogTable(log)
    requires forall p :: 0 <= p < 256 ==> error[p] == 0
    modifies error
    ensures forall p :: 1 <= p < 255 ==> error[p] == ZeroTest(w[SlotAt(p)])
    ensures error[0] == ZeroTest(w[0]) ^ ZeroTest(w[128]) && error[255] == 0
  {
    hide Add, SubsetSum, Shifted, Basis, Index, ZeroTest, Point, Slot, SlotAt, Retrieved;
    Pow2Eight();
    var gammas := ComputeFftBetas();
    var sums := new Elt[128](i => ZERO);
    ComputeSubsetSums(sums, gammas);
    error[0] := error[0] ^ ZeroTest(w[0]);
    error[0] := error[0] ^ ZeroTest(w[128]);
    XorZeroLeft(ZeroTest(w[0]));
    NothingRetrieved(error[..], w);
    var i := 1;
    while i < 128
      invariant 1 <= i <= 128
      invariant error[0] == ZeroTest(w[0]) ^ ZeroTest(w[128]) && error[255] == 0
      invariant forall k :: 0 <= k < 128 ==> sums[k] == SubsetSum(gammas, k)
      invariant Retrieved(error[..], w, i)
    {
      ghost var e0 := error[..];
      SumsArePoints(i);
      Pos(i);
      Pos(128 + i);
      PointInjectiveIf(i, 128 + i);
      ghost var p := MarkRoot(error, log, sums[i], w[i]);
      ghost var q := MarkRoot(error, log, Add(sums[i], ONE), w[128 + i]);
      RetrieveStep(e0, error[..], w, i, p, q);
      i := i + 1;
    }
    AllRetrieved(error[..], w);
  }

  lemma AllRetrieved(error: seq<bv8>, w: seq<Elt>)
    requires |error| == |w| == 256 && Retrieved(error, w, 128)
    ensures forall p :: 1 <= p < 255 ==> error[p] == ZeroTest(w[SlotAt(p)])
  {
    hide ZeroTest, SlotAt;
  }

  lemma SumsArePoints(i: nat)
    requires i < 128
    ensures Pow2(7) == 128 && SubsetSum(Basis()[..7], i) == Point(i)
  {
    hide SubsetSum, Basis;
    Pow2Eight();
    assert Basis()[..8] == Basis();
    SubsetSumTop(Basis(), 7, i);
  }

  lemma PointInjectiveIf(t: nat, u: nat)
    requires t < 256 && u < 256 && t != u
    ensures Point(t) != Point(u)
  {
    hide SubsetSum, Basis;
    if Point(t) == Point(u) { PointInjective(t, u); }
  }

  lemma NothingRetrieved(error: seq<bv8>, w: seq<Elt>)
    requires |error| == |w| == 256 && forall p :: 1 <= p < 255 ==> error[p] == 0
    ensures Retrieved(error, w, 1)
  {
    hide Shifted, SlotAt, Point, ZeroTest;
    forall p | 1 <= p < 255
      ensures error[p] == if SlotAt(p) % 128 < 1 then ZeroTest(w[SlotAt(p)]) else 0
    {
      var t := SlotAt(p);
      Pos(t);
      AlphaNonzero(255 - p);
      AlphaOrder(255 - p);
      assert Point(t) == Alpha(255 - p);
    }
  }

  /** compute_roots marks position p exactly when sigma(alpha^-p) = 0; position 0 also answers for a root at 0. */
  method ComputeRoots(error: array<bv8>, sigma: array<Elt>, log: seq<nat>)
    requires error.Length == 256 && sigma.Length == 16 && LogTable(log)
    requires forall p :: 0 <= p < 256 ==> error[p] == 0
    modifies error
    ensures forall p :: 1 <= p < 255 ==> error[p] == if Value(sigma[..], Alpha(255 - p)) == ZERO then 1 else 0
    ensures error[0] == if (Value(sigma[..], ONE) == ZERO) != (Value(sigma[..], ZERO) == ZERO) then 1 else 0
    ensures error[255] == 0
  {
    hide Shifted, SubsetSum, Basis, Index, ZeroTest, Point, SlotAt, Value;
    var w := new Elt[256](i => ZERO);
    Fft(w, sigma);
    FftRetrieveErrorPoly(error, w[..], log);
    Pos(0);
    Pos(128);
    ZeroTestCorrect(w[0]);
    ZeroTestCorrect(w[128]);
    forall p | 1 <= p < 255
      ensures error[p] == if Value(sigma[..], Alpha(255 - p)) == ZERO then 1 else 0
    {
      var t := SlotAt(p);
      ZeroTestCorrect(w[t]);
    }
  }
}
