/** fft.c: the additive FFT evaluates a polynomial at every subset sum of the betas. */
module AdditiveFft {
  import opened Gf256
  import opened GfArithmetic
  import opened Polynomials
  import opened PowerSums
  import opened RadixConversion

  // ---- subset sums

  /** The sum of the elements of set selected by the bits of i. */
  function SubsetSum(basis: seq<Elt>, i: nat): Elt
    requires i < Pow2(|basis|)
  {
    if basis == [] then ZERO
    else
      var top := |basis| - 1;
      if i < Pow2(top) then SubsetSum(basis[..top], i) else Add(basis[top], SubsetSum(basis[..top], i - Pow2(top)))
  }

  /** No nonempty selection sums to zero. */
  ghost predicate Independent(basis: seq<Elt>) {
    forall i :: 0 < i < Pow2(|basis|) ==> SubsetSum(basis, i) != ZERO
  }

  lemma {:induction false} SubsetSumZero(basis: seq<Elt>)
    ensures SubsetSum(basis, 0) == ZERO
  {
    if basis != [] { SubsetSumZero(basis[..|basis| - 1]); }
  }

  /** One more element doubles the sums. */
  lemma SubsetSumTop(basis: seq<Elt>, m: nat, i: nat)
    requires m < |basis| && i < Pow2(m)
    ensures Pow2(m + 1) == 2 * Pow2(m)
    ensures SubsetSum(basis[..m + 1], i) == SubsetSum(basis[..m], i)
    ensures SubsetSum(basis[..m + 1], Pow2(m) + i) == Add(basis[m], SubsetSum(basis[..m], i))
  {
    hide Add;
    assert basis[..m + 1][..m] == basis[..m];
  }

  lemma {:induction false} SubsetSumScaled(b: seq<Elt>, g: seq<Elt>, c: Elt, i: nat)
    requires |g| == |b| && i < Pow2(|b|)
    requires forall j :: 0 <= j < |b| ==> g[j] == Mul(b[j], c)
    ensures SubsetSum(g, i) == Mul(SubsetSum(b, i), c)
  {
    hide Add, Mul;
    if b == [] {
      MulOne(c);
    } else {
      var top := |b| - 1;
      var r := if i < Pow2(top) then i else i - Pow2(top);
      SubsetSumScaled(b[..top], g[..top], c, r);
      MulAddLeft(b[top], SubsetSum(b[..top], r), c);
    }
  }

  lemma ArtinAdd(a: Elt, b: Elt)
    ensures Artin(Add(a, b)) == Add(Artin(a), Artin(b))
    ensures Artin(ZERO) == ZERO && Artin(ONE) == ZERO
  {
    hide Add, Mul;
    SquareAdd(a, b);
    AddRegroup(Mul(a, a), Mul(b, b), a, b);
    MulOne(ZERO);
    MulOne(ONE);
    AddZero(ZERO);
    AddZero(ONE);
  }

  lemma {:induction false} SubsetSumArtin(g: seq<Elt>, d: seq<Elt>, i: nat)
    requires |d| == |g| && i < Pow2(|g|)
    requires forall j :: 0 <= j < |g| ==> d[j] == Artin(g[j])
    ensures SubsetSum(d, i) == Artin(SubsetSum(g, i))
  {
    hide Add, Artin;
    ArtinAdd(ZERO, ZERO);
    if g != [] {
      var top := |g| - 1;
      var r := if i < Pow2(top) then i else i - Pow2(top);
      SubsetSumArtin(g[..top], d[..top], r);
      ArtinAdd(g[top], SubsetSum(g[..top], r));
    }
  }

  /** x^2 + x vanishes only at 0 and 1. */
  lemma ArtinZero(x: Elt)
    ensures Artin(x) == ZERO ==> x == ZERO || x == ONE
  {
    hide Add, Mul;
    MulOne(x);
    MulAddLeft(x, ONE, x);
    MulNonzero(Add(x, ONE), x);
    AddCancel(x, ONE);
  }

  /** The betas divided by the last of them, and their images under x^2 + x. */
  ghost predicate Reduced(b: seq<Elt>, g: seq<Elt>, d: seq<Elt>) {
    && |b| > 0 && |g| == |d| == |b| - 1
    && (forall j :: 0 <= j < |g| ==> g[j] == Mul(b[j], Inverse(b[|b| - 1])) && d[j] == Artin(g[j]))
  }

  lemma ReducedSum(b: seq<Elt>, g: seq<Elt>, d: seq<Elt>, i: nat)
    requires Reduced(b, g, d) && b[|b| - 1] != ZERO && i < Pow2(|g|)
    ensures Pow2(|b|) == 2 * Pow2(|g|)
    ensures SubsetSum(d, i) == Artin(SubsetSum(g, i))
    ensures SubsetSum(b, i) == Mul(b[|b| - 1], SubsetSum(g, i))
    ensures SubsetSum(b, Pow2(|g|) + i) == Mul(b[|b| - 1], Add(SubsetSum(g, i), ONE))
  {
    hide Add, Mul, Artin, Inverse, SubsetSum;
    var top := |g|;
    var last, c := b[top], Inverse(b[top]);
    SubsetSumScaled(b[..top], g, c, i);
    SubsetSumArtin(g, d, i);
    InverseCorrect(last);
    var s := SubsetSum(b[..top], i);
    MulComm(s, c);
    MulAssoc(last, c, s);
    MulOne(s);
    MulAdd(last, SubsetSum(g, i), ONE);
    MulOne(last);
    AddComm(last, s);
    SubsetSumTop(b, top, i);
    assert b[..top + 1] == b;
  }

  lemma ReducedIndependent(b: seq<Elt>, g: seq<Elt>, d: seq<Elt>)
    requires Reduced(b, g, d) && Independent(b)
    ensures b[|b| - 1] != ZERO && Independent(d)
  {
    hide Add, Mul, Artin, Inverse, SubsetSum, Reduced;
    ReducedLengths(b, g, d);
    LastNonzero(b);
    forall i | 0 < i < Pow2(|d|)
      ensures SubsetSum(d, i) != ZERO
    {
      ReducedSum(b, g, d, i);
      var s := SubsetSum(g, i);
      ArtinZero(s);
      MulNonzero(b[|b| - 1], s);
      MulNonzero(b[|b| - 1], Add(s, ONE));
      AddZero(ONE);
      assert SubsetSum(b, i) != ZERO && SubsetSum(b, Pow2(|g|) + i) != ZERO;
    }
  }

  lemma ReducedLengths(b: seq<Elt>, g: seq<Elt>, d: seq<Elt>)
    requires Reduced(b, g, d)
    ensures |b| > 0 && |g| == |d| == |b| - 1
  {}

  lemma LastNonzero(b: seq<Elt>)
    requires |b| > 0 && Independent(b)
    ensures b[|b| - 1] != ZERO
  {
    hide Add, SubsetSum;
    var top := |b| - 1;
    SubsetSumTop(b, top, 0);
    SubsetSumZero(b[..top]);
    AddZero(b[top]);
    assert b[..top + 1] == b;
    assert SubsetSum(b, Pow2(top)) == b[top];
  }

  // ---- evaluation

  /** g(x) = f(b * x) when every coefficient is multiplied by the matching power of b. */
  lemma {:induction false} ValueTwist(f: Poly, g: Poly, b: Elt, k: nat, x: Elt)
    requires |g| == |f| && forall i :: 0 <= i < |f| ==> g[i] == Mul(Power(b, k + i), f[i])
    ensures Value(g, x) == Mul(Power(b, k), Value(f, Mul(b, x)))
  {
    hide Add, Mul;
    var p := Power(b, k);
    if f == [] {
      MulOne(p);
    } else {
      var v := Value(f[1..], Mul(b, x));
      ValueTwist(f[1..], g[1..], b, k + 1, x);
      MulAdd(p, f[0], Mul(Mul(b, x), v));
      // x * (b*p * v) == p * (b*x * v)
      MulComm(b, p);
      MulAssoc(p, b, v);
      MulSwap(x, p, Mul(b, v));
      MulSwap(x, b, v);
      MulAssoc(b, x, v);
    }
  }

  /** The two values obtained from one value of each half. */
  lemma Combine(f: Poly, mf: nat, x: Elt, u: Elt, v: Elt)
    requires mf >= 1 && |f| == Pow2(mf)
    requires u == Value(Radix(f, mf).0, Artin(x)) && v == Value(Radix(f, mf).1, Artin(x))
    ensures Value(f, x) == Add(u, Mul(x, v))
    ensures Value(f, Add(x, ONE)) == Add(v, Add(u, Mul(x, v)))
  {
    hide Add, Mul, Artin, Value, Radix;
    RadixCorrect(f, mf, x);
    RadixCorrect(f, mf, Add(x, ONE));
    ArtinAdd(x, ONE);
    AddZero(Artin(x));
    MulAddLeft(x, ONE, v);
    MulOne(v);
    AddAssoc(u, Mul(x, v), v);
    AddComm(v, Add(u, Mul(x, v)));
  }

  lemma LinearStep(f: Poly, a: Elt, b: Elt)
    requires |f| == 2
    ensures Value(f, Add(b, a)) == Add(Value(f, a), Mul(b, f[1]))
    ensures Value(f, ZERO) == f[0]
  {
    hide Add, Mul, Value;
    LinearValue(f, a);
    LinearValue(f, Add(b, a));
    LinearValue(f, ZERO);
    MulAddLeft(b, a, f[1]);
    AddComm(Mul(b, f[1]), Mul(a, f[1]));
    AddAssoc(f[0], Mul(a, f[1]), Mul(b, f[1]));
    MulOne(f[1]);
    AddZero(f[0]);
  }

  // ---- the methods of fft.c

  method ComputeSubsetSums(sums: array<Elt>, basis: seq<Elt>)
    requires sums.Length >= Pow2(|basis|)
    modifies sums
    ensures forall i :: 0 <= i < Pow2(|basis|) ==> sums[i] == SubsetSum(basis, i)
  {
    hide Add, SubsetSum;
    sums[0] := ZERO;
    SubsetSumZero(basis[..0]);
    var i, size := 0, 1;
    while i < |basis|
      invariant 0 <= i <= |basis| && size == Pow2(i) && Pow2(i) <= Pow2(|basis|)
      invariant forall k :: 0 <= k < size ==> sums[k] == SubsetSum(basis[..i], k)
    {
      Pow2Grows(i + 1, |basis|);
      assert Pow2(i + 1) == 2 * size;
      var j := 0;
      while j < size
        invariant 0 <= j <= size
        invariant forall k :: 0 <= k < size ==> sums[k] == SubsetSum(basis[..i], k)
        invariant forall k :: size <= k < size + j ==> sums[k] == Add(basis[i], SubsetSum(basis[..i], k - size))
      {
        sums[size + j] := Add(basis[i], sums[j]);
        j := j + 1;
      }
      forall k | 0 <= k < 2 * size
        ensures sums[k] == SubsetSum(basis[..i + 1], k)
      {
        SubsetSumTop(basis, i, if k < size then k else k - size);
      }
      i, size := i + 1, 2 * size;
    }
    assert basis[..|basis|] == basis;
  }

  lemma {:induction false} Pow2Grows(a: nat, b: nat)
    requires a <= b
    ensures Pow2(a) <= Pow2(b)
  {
    if a < b { Pow2Grows(a, b - 1); }
  }

  /** The case of sixteen coefficients. */
  method RadixConvert4(f0: array<Elt>, f1: array<Elt>, f: array<Elt>)
    requires f.Length >= 16 && f0.Length >= 8 && f1.Length >= 8
    requires f0 != f1 && f0 != f && f1 != f
    modifies f0, f1
    ensures f0[..8] == Radix(f[..16], 4).0
    ensures f1[..8] == Radix(f[..16], 4).1
  {
    hide Add, Radix;
    ghost var c := f[..16];
    Radix4(c);
    f0[4] := Add(f[8], f[12]);
    f0[6] := Add(f[12], f[14]);
    f0[7] := Add(f[14], f[15]);
    f1[5] := Add(f[11], f[13]);
    f1[6] := Add(f[13], f[14]);
    f1[7] := f[15];
    f0[5] := Add(Add(f[10], f[12]), f1[5]);
    f1[4] := Add(Add(f[9], f[13]), f0[5]);

    f0[0] := f[0];
    f1[3] := Add(Add(f[7], f[11]), f[15]);
    f0[3] := Add(Add(Add(f[6], f[10]), f[14]), f1[3]);
    f0[2] := Add(Add(Add(f[4], f0[4]), f0[3]), f1[3]);
    f1[1] := Add(Add(Add(Add(f[3], f[5]), f[9]), f[13]), f1[3]);
    f1[2] := Add(Add(f[3], f1[1]), f0[3]);
    f0[1] := Add(Add(f[2], f0[2]), f1[1]);
    f1[0] := Add(f[1], f0[1]);
    Table4Determines(c, f0[..8], f1[..8], Radix(c, 4).0, Radix(c, 4).1);
  }

  /** radix, for the 2, 4, 8 or 16 coefficients that the decoder needs. */
  method RadixConvert(f0: array<Elt>, f1: array<Elt>, f: array<Elt>, mf: nat)
    requires 1 <= mf <= 4 && f.Length >= Pow2(mf) && f0.Length >= Pow2(mf - 1) && f1.Length >= Pow2(mf - 1)
    requires f0 != f1 && f0 != f && f1 != f
    modifies f0, f1
    ensures f0[..Pow2(mf - 1)] == Radix(f[..Pow2(mf)], mf).0
    ensures f1[..Pow2(mf - 1)] == Radix(f[..Pow2(mf)], mf).1
  {
    hide Add, Radix;
    ghost var c := f[..Pow2(mf)];
    match mf {
      case 4 =>
        RadixConvert4(f0, f1, f);
      case 3 =>
        Radix3(c);
        f0[0] := f[0];
        f0[2] := Add(f[4], f[6]);
        f0[3] := Add(f[6], f[7]);
        f1[1] := Add(Add(f[3], f[5]), f[7]);
        f1[2] := Add(f[5], f[6]);
        f1[3] := f[7];
        f0[1] := Add(Add(f[2], f0[2]), f1[1]);
        f1[0] := Add(f[1], f0[1]);
        Table3Determines(c, f0[..4], f1[..4], Radix(c, 3).0, Radix(c, 3).1);
      case 2 =>
        Radix2(c);
        f0[0] := f[0];
        f0[1] := Add(f[2], f[3]);
        f1[0] := Add(f[1], f0[1]);
        f1[1] := f[3];
      case 1 =>
        f0[0] := f[0];
        f1[0] := f[1];
        Radix1(c);
    }
  }

  lemma Radix1(f: Poly)
    requires |f| == 2
    ensures Pow2(1) == 2 && Pow2(0) == 1 && Radix(f, 1) == ([f[0]], [f[1]])
  {}

  lemma Table3Determines(f: Poly, g0: Poly, g1: Poly, h0: Poly, h1: Poly)
    requires |f| == 8 && |g0| == |g1| == |h0| == |h1| == 4
    requires Table3(f, g0, g1) && Table3(f, h0, h1)
    ensures g0 == h0 && g1 == h1
  {
    hide Add;
    assert g0[0] == h0[0] && g0[1] == h0[1] && g0[2] == h0[2] && g0[3] == h0[3];
    assert g1[0] == h1[0] && g1[1] == h1[1] && g1[2] == h1[2] && g1[3] == h1[3];
  }

  lemma Table4Determines(f: Poly, g0: Poly, g1: Poly, h0: Poly, h1: Poly)
    requires |f| == 16 && |g0| == |g1| == |h0| == |h1| == 8
    requires Table4(f, g0, g1) && Table4(f, h0, h1)
    ensures g0 == h0 && g1 == h1
  {
    hide Add;
    assert g0[4] == h0[4] && g0[5] == h0[5] && g0[6] == h0[6] && g0[7] == h0[7];
    assert g1[4] == h1[4] && g1[5] == h1[5] && g1[6] == h1[6] && g1[7] == h1[7];
    assert g0[0] == h0[0] && g0[1] == h0[1] && g0[2] == h0[2] && g0[3] == h0[3];
    assert g1[0] == h1[0] && g1[1] == h1[1] && g1[2] == h1[2] && g1[3] == h1[3];
  }

  /** The upper half of w becomes the lower half plus t. */
  method Extend(w: array<Elt>, t: Elt, x: nat)
    requires w.Length >= 2 * x
    modifies w
    ensures forall l :: 0 <= l < x ==> w[l] == old(w[l])
    ensures forall l :: x <= l < 2 * x ==> w[l] == Add(old(w[l - x]), t)
  {
    hide Add;
    var k := 0;
    while k < x
      invariant 0 <= k <= x
      invariant forall l :: 0 <= l < x ==> w[l] == old(w[l])
      invariant forall l :: x <= l < x + k ==> w[l] == Add(old(w[l - x]), t)
    {
      w[x + k] := Add(w[k], t);
      k := k + 1;
    }
  }

  /** Evaluation of a polynomial with two coefficients. */
  method EvaluateLinear(w: array<Elt>, f: array<Elt>, betas: seq<Elt>)
    requires f.Length >= 2 && |betas| <= 5 && w.Length >= Pow2(|betas|) && w != f
    modifies w
    ensures forall i :: 0 <= i < Pow2(|betas|) ==> w[i] == Value(f[..2], SubsetSum(betas, i))
  {
    hide Add, Mul, Value, SubsetSum;
    var m := |betas|;
    var tmp := new Elt[5](i => ZERO);
    var i := 0;
    while i < m
      invariant 0 <= i <= m
      invariant forall j :: 0 <= j < i ==> tmp[j] == Mul(betas[j], f[1])
    {
      tmp[i] := Mul(betas[i], f[1]);
      i := i + 1;
    }
    ghost var p := f[..2];
    w[0] := f[0];
    SubsetSumZero(betas[..0]);
    LinearStep(p, ZERO, ZERO);
    var j, x := 0, 1;
    while j < m
      invariant 0 <= j <= m && x == Pow2(j) && Pow2(j) <= Pow2(m)
      invariant forall k :: 0 <= k < m ==> tmp[k] == Mul(betas[k], p[1])
      invariant forall k :: 0 <= k < x ==> w[k] == Value(p, SubsetSum(betas[..j], k))
    {
      Pow2Grows(j + 1, m);
      assert Pow2(j + 1) == 2 * x;
      ghost var before := w[..x];
      Extend(w, tmp[j], x);
      forall l | 0 <= l < 2 * x
        ensures w[l] == Value(p, SubsetSum(betas[..j + 1], l))
      {
        var r := if l < x then l else l - x;
        assert before[r] == Value(p, SubsetSum(betas[..j], r));
        SubsetSumTop(betas, j, r);
        LinearStep(p, SubsetSum(betas[..j], r), betas[j]);
      }
      j, x := j + 1, 2 * x;
    }
    assert betas[..m] == betas;
  }

  /** Multiplies the coefficient of x^i by beta^i. */
  method Twist(f: array<Elt>, mf: nat, beta: Elt)
    requires f.Length >= Pow2(mf)
    modifies f
    ensures forall i :: 0 <= i < Pow2(mf) ==> f[i] == Mul(Power(beta, i), old(f[i]))
  {
    hide Add, Mul;
    var x := Pow2(mf);
    if beta != ONE {
      var betaPow := ONE;
      MulOne(f[0]);
      var i := 1;
      while i < x
        invariant 1 <= i <= x && betaPow == Power(beta, i - 1)
        invariant forall j :: 0 <= j < i ==> f[j] == Mul(Power(beta, j), old(f[j]))
        invariant forall j :: i <= j < f.Length ==> f[j] == old(f[j])
      {
        MulComm(betaPow, beta);
        betaPow := Mul(betaPow, beta);
        f[i] := Mul(betaPow, f[i]);
        i := i + 1;
      }
    } else {
      forall i: nat | i < x
        ensures f[i] == Mul(Power(beta, i), f[i])
      {
        PowerOfOne(i);
        MulOne(f[i]);
      }
    }
  }

  lemma {:induction false} PowerOfOne(i: nat)
    ensures Power(ONE, i) == ONE
  {
    hide Mul;
    if i > 0 {
      PowerOfOne(i - 1);
      MulOne(ONE);
    }
  }

  /** w[i] = u[i] + sums[i] * v[i] and w[k + i] = w[i] + v[i]. */
  method Butterfly(w: array<Elt>, u: seq<Elt>, v: seq<Elt>, sums: seq<Elt>)
    requires 0 < |u| == |v| == |sums| && w.Length >= 2 * |u| && sums[0] == ZERO
    modifies w
    ensures forall i :: 0 <= i < |u| ==> w[i] == Add(u[i], Mul(sums[i], v[i]))
    ensures forall i :: |u| <= i < 2 * |u| ==> w[i] == Add(v[i - |u|], Add(u[i - |u|], Mul(sums[i - |u|], v[i - |u|])))
  {
    hide Add, Mul;
    var k := |u|;
    forall i | 0 <= i < k {
      w[k + i] := v[i];
    }
    w[0] := u[0];
    w[k] := Add(w[k], u[0]);
    MulOne(v[0]);
    AddZero(u[0]);
    var i := 1;
    while i < k
      invariant 1 <= i <= k
      invariant forall j :: 0 <= j < i ==> w[j] == Add(u[j], Mul(sums[j], v[j]))
      invariant forall j :: k <= j < k + i ==> w[j] == Add(v[j - k], w[j - k])
      invariant forall j :: k + i <= j < 2 * k ==> w[j] == v[j - k]
    {
      w[i] := Add(u[i], Mul(sums[i], v[i]));
      w[k + i] := Add(w[k + i], w[i]);
      i := i + 1;
    }
  }

  /** The subset sums of the reduced betas and the matching arguments of the two halves. */
  method Reduce(betas: seq<Elt>) returns (gammas: seq<Elt>, deltas: seq<Elt>)
    requires |betas| > 0
    ensures Reduced(betas, gammas, deltas)
  {
    hide Add, Mul, Inverse;
    var m := |betas|;
    gammas, deltas := [], [];
    var i := 0;
    while i + 1 < m
      invariant 0 <= i < m && |gammas| == |deltas| == i
      invariant forall j :: 0 <= j < i ==> gammas[j] == Mul(betas[j], Inverse(betas[m - 1])) && deltas[j] == Artin(gammas[j])
    {
      var gamma := Mul(betas[i], Inverse(betas[m - 1]));
      gammas := gammas + [gamma];
      deltas := deltas + [Add(Mul(gamma, gamma), gamma)];
      i := i + 1;
    }
  }

  /** fft_rec on a polynomial that fills its 2^mf coefficients: w receives its value at every subset sum; f is overwritten. */
  method FftRec(w: array<Elt>, f: array<Elt>, mf: nat, betas: seq<Elt>)
    requires 1 <= mf <= 3 && mf <= |betas| <= mf + 4
    requires w.Length >= Pow2(|betas|) && f.Length >= Pow2(mf) && w != f
    requires Independent(betas)
    modifies w, f
    ensures forall i :: 0 <= i < Pow2(|betas|) ==> w[i] == Value(old(f[..Pow2(mf)]), SubsetSum(betas, i))
    decreases mf, 1
  {
    hide Add, Mul, Inverse, Artin, Value, Radix, SubsetSum, Independent, Reduced, Power;
    if mf == 1 {
      EvaluateLinear(w, f, betas);
    } else {
      ghost var p := f[..Pow2(mf)];
      LastNonzero(betas);
      Twist(f, mf, betas[|betas| - 1]);
      ghost var g := f[..Pow2(mf)];
      var gammas, deltas := Reduce(betas);
      ReducedLengths(betas, gammas, deltas);
      ReducedIndependent(betas, gammas, deltas);
      var u, v, sums := Halves(f, mf, gammas, deltas);
      SubsetSumZero(gammas);
      Butterfly(w, u, v, sums);
      RecursionValues(w[..2 * |u|], u, v, sums, p, g, mf, betas, gammas, deltas);
    }
  }

  /** The values of the two halves of the radix conversion at the sums of the deltas, and the sums of the gammas. */
  method Halves(f: array<Elt>, mf: nat, gammas: seq<Elt>, deltas: seq<Elt>) returns (u: seq<Elt>, v: seq<Elt>, sums: seq<Elt>)
    requires 2 <= mf <= 4 && f.Length >= Pow2(mf) && mf <= |gammas| + 1 <= mf + 4
    requires |deltas| == |gammas| && Independent(deltas)
    ensures |u| == |v| == |sums| == Pow2(|gammas|)
    ensures forall i :: 0 <= i < |u| ==> sums[i] == SubsetSum(gammas, i)
    ensures forall i :: 0 <= i < |u| ==> u[i] == Value(Radix(f[..Pow2(mf)], mf).0, SubsetSum(deltas, i))
    ensures forall i :: 0 <= i < |u| ==> v[i] == Value(Radix(f[..Pow2(mf)], mf).1, SubsetSum(deltas, i))
    decreases mf, 0
  {
    hide Add, Mul, Inverse, Artin, Value, Radix, SubsetSum, Independent;
    var f0, f1 := new Elt[8](i => ZERO), new Elt[8](i => ZERO);
    Pow2Grows(mf - 1, 3);
    RadixConvert(f0, f1, f, mf);
    var k := Pow2(|gammas|);
    var s := new Elt[k](i => ZERO);
    ComputeSubsetSums(s, gammas);
    var w0 := new Elt[k](i => ZERO);
    FftRec(w0, f0, mf - 1, deltas);
    var w1 := new Elt[k](i => ZERO);
    FftRec(w1, f1, mf - 1, deltas);
    u, v, sums := w0[..], w1[..], s[..];
  }

  /** Why the recursion is right: untwist, then combine the halves at gamma and gamma + 1. */
  lemma RecursionValues(w: seq<Elt>, u: seq<Elt>, v: seq<Elt>, sums: seq<Elt>, p: Poly, g: Poly, mf: nat,
                        betas: seq<Elt>, gammas: seq<Elt>, deltas: seq<Elt>)
    requires 1 <= mf && |p| == |g| == Pow2(mf)
    requires Reduced(betas, gammas, deltas) && betas[|betas| - 1] != ZERO
    requires |u| == |v| == |sums| == Pow2(|gammas|) && |w| == 2 * Pow2(|gammas|)
    requires forall i :: 0 <= i < |p| ==> g[i] == Mul(Power(betas[|betas| - 1], i), p[i])
    requires forall i :: 0 <= i < |u| ==> sums[i] == SubsetSum(gammas, i)
    requires forall i :: 0 <= i < |u| ==> u[i] == Value(Radix(g, mf).0, SubsetSum(deltas, i))
    requires forall i :: 0 <= i < |u| ==> v[i] == Value(Radix(g, mf).1, SubsetSum(deltas, i))
    requires forall i :: 0 <= i < |u| ==> w[i] == Add(u[i], Mul(sums[i], v[i]))
    requires forall i :: |u| <= i < |w| ==> w[i] == Add(v[i - |u|], Add(u[i - |u|], Mul(sums[i - |u|], v[i - |u|])))
    ensures |w| == Pow2(|betas|)
    ensures forall i :: 0 <= i < |w| ==> w[i] == Value(p, SubsetSum(betas, i))
  {
    hide Add, Mul, Artin, Value, Radix, SubsetSum, Reduced, Power;
    ReducedLengths(betas, gammas, deltas);
    var k, b := |u|, betas[|betas| - 1];
    ReducedSum(betas, gammas, deltas, 0);
    forall i | 0 <= i < |w|
      ensures w[i] == Value(p, SubsetSum(betas, i))
    {
      var r := if i < k then i else i - k;
      var s := SubsetSum(gammas, r);
      ReducedSum(betas, gammas, deltas, r);
      Combine(g, mf, s, u[r], v[r]);
      Untwist(p, g, b, s);
      Untwist(p, g, b, Add(s, ONE));
    }
  }

  lemma Untwist(p: Poly, g: Poly, b: Elt, x: Elt)
    requires |p| == |g| && forall i :: 0 <= i < |p| ==> g[i] == Mul(Power(b, i), p[i])
    ensures Value(g, x) == Value(p, Mul(b, x))
  {
    hide Mul, Value;
    ValueTwist(p, g, b, 0, x);
    assert Power(b, 0) == ONE;
    MulOne(Value(p, Mul(b, x)));
  }
}
