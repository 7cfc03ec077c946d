/** compute_z_poly and compute_error_values: the error values from the locator and the syndromes. */
module ForneyValues {
  import opened Gf256
  import opened GfArithmetic
  import opened Polynomials
  import opened PowerSums
  import opened RadixConversion
  import opened Berlekamp
  import opened ErrorLocator
  import opened ErrorPositions
  import opened ReedSolomonEncoder

  // ---- the evaluator polynomial

  function Scaled(p: Poly, c: Elt): (r: Poly)
    ensures |r| == |p|
  {
    seq(|p|, i requires 0 <= i < |p| => Mul(c, p[i]))
  }

  /** The sum over l of ws[l] times the product of 1 + xs[k]*X over the other k. */
  function Evaluator(xs: seq<Elt>, ws: seq<Elt>): (r: Poly)
    requires |xs| == |ws|
    ensures |r| == |xs|
  {
    if xs == [] then []
    else Plus(TimesLinear(Evaluator(xs[1..], ws[1..]), xs[0]), Scaled(Locator(xs[1..]), ws[0]))
  }

  /** The product of 1 + xs[k]*x. */
  function Factors(xs: seq<Elt>, x: Elt): Elt {
    if xs == [] then ONE else Mul(Add(ONE, Mul(xs[0], x)), Factors(xs[1..], x))
  }

  lemma {:induction false} LocatorValue(xs: seq<Elt>, x: Elt)
    ensures Value(Locator(xs), x) == Factors(xs, x)
  {
    hide Add, Mul, Value, TimesLinear;
    if xs == [] {
      ValueSingle(ONE, x);
    } else {
      LocatorValue(xs[1..], x);
      TimesLinearValue(Locator(xs[1..]), xs[0], x);
    }
  }

  lemma {:induction false} FactorsConcat(a: seq<Elt>, b: seq<Elt>, x: Elt)
    ensures Factors(a + b, x) == Mul(Factors(a, x), Factors(b, x))
  {
    hide Add, Mul;
    if a == [] {
      assert a + b == b;
      MulOne(Factors(b, x));
    } else {
      FactorsConcat(a[1..], b, x);
      assert (a + b)[1..] == a[1..] + b;
      MulAssoc(Add(ONE, Mul(a[0], x)), Factors(a[1..], x), Factors(b, x));
    }
  }

  lemma {:induction false} FactorsOfZeros(a: seq<Elt>, x: Elt)
    requires forall i :: 0 <= i < |a| ==> a[i] == ZERO
    ensures Factors(a, x) == ONE
  {
    hide Add, Mul;
    if a != [] {
      FactorsOfZeros(a[1..], x);
      MulOne(x);
      AddZero(ONE);
      MulOne(ONE);
    }
  }

  function Without(xs: seq<Elt>, m: nat): (r: seq<Elt>)
    requires m < |xs|
    ensures |r| == |xs| - 1
  {
    xs[..m] + xs[m + 1..]
  }

  lemma ValueTimesLinear(p: Poly, a: Elt, x: Elt)
    ensures Value(TimesLinear(p, a), x) == Mul(Add(ONE, Mul(a, x)), Value(p, x))
  {
    hide Add, Mul, Value;
    if p != [] {
      TimesLinearValue(p, a, x);
    } else {
      AddZero(ZERO);
      assert TimesLinear(p, a) == [ZERO];
      ValueSingle(ZERO, x);
      ValueEmpty(x);
      MulOne(Add(ONE, Mul(a, x)));
    }
  }

  /** At the inverse of location m only the term of m is left. */
  lemma {:induction false} EvaluatorValue(xs: seq<Elt>, ws: seq<Elt>, m: nat, x: Elt)
    requires |xs| == |ws| && m < |xs| && Mul(xs[m], x) == ONE
    ensures Value(Evaluator(xs, ws), x) == Mul(ws[m], Factors(Without(xs, m), x))
  {
    hide Add, Mul, Value, TimesLinear, Locator, Plus, Scaled;
    var c := Add(ONE, Mul(xs[0], x));
    var rest := Evaluator(xs[1..], ws[1..]);
    var f := Value(Locator(xs[1..]), x);
    ValuePlus(TimesLinear(rest, xs[0]), Scaled(Locator(xs[1..]), ws[0]), x);
    ValueTimesLinear(rest, xs[0], x);
    assert Value(Scaled(Locator(xs[1..]), ws[0]), x) == Mul(ws[0], f) by { ScaledValue(Locator(xs[1..]), ws[0], x); }
    if m == 0 {
      LocatorValue(xs[1..], x);
      assert Without(xs, 0) == xs[1..];
      AddZero(ONE);
      MulOne(Value(rest, x));
      AddZero(Mul(ws[0], f));
    } else {
      EvaluatorValue(xs[1..], ws[1..], m - 1, x);
      LocatorRoot(xs[1..], x);
      assert Mul(xs[1..][m - 1], x) == ONE;
      MulOne(ws[0]);
      AddZero(Mul(c, Value(rest, x)));
      assert Without(xs, m)[1..] == Without(xs[1..], m - 1) && Without(xs, m)[0] == xs[0];
      MulSwap(c, ws[m], Factors(Without(xs[1..], m - 1), x));
    }
  }

  lemma ScaledValue(p: Poly, c: Elt, x: Elt)
    ensures Value(Scaled(p, c), x) == Mul(c, Value(p, x))
  {
    hide Mul, Add, Value;
    ValueScaled(p, Scaled(p, c), c, x);
  }

  // ---- the evaluator is the product of the locator and the syndromes

  lemma ActLinear(q: Poly, u: int -> Elt, v: int -> Elt, w: int -> Elt, c: Elt, n: int)
    requires forall k {:trigger u(k)} :: u(k) == Add(v(k), Mul(c, w(k)))
    ensures Act(q, u, n) == Add(Act(q, v, n), Mul(c, Act(q, w, n)))
  {
    hide Add, Mul, Apply;
    ApplyLinear(q, u, v, w, c, 0, n, |q|);
  }

  /** The sequence 1, 0, 0, .. starting at index 0. */
  ghost predicate Impulse(d: int -> Elt) {
    forall k {:trigger d(k)} :: d(k) == if k == 0 then ONE else ZERO
  }

  lemma {:induction false} ImpulseResponse(p: Poly, d: int -> Elt, n: nat, m: nat)
    requires Impulse(d) && m <= |p|
    ensures Apply(p, d, n, m) == if n < m then p[n] else ZERO
  {
    hide Add, Mul;
    if m > 0 {
      ImpulseResponse(p, d, n, m - 1);
      assert d(n - (m - 1)) == if n == m - 1 then ONE else ZERO;
      MulOne(p[m - 1]);
      if n == m - 1 { AddZero(p[n]); }
      AddZero(Apply(p, d, n, m - 1));
    }
  }

  /** Power sums for indices from 0 on, zero before. */
  ghost predicate StartsAtZero(s: int -> Elt, xs: seq<Elt>, ws: seq<Elt>) {
    && |xs| == |ws|
    && forall k {:trigger s(k)} :: s(k) == if k >= 0 then PowerSum(xs, ws, k) else ZERO
  }

  function SumSequence(xs: seq<Elt>, ws: seq<Elt>): int -> Elt
    requires |xs| == |ws|
  {
    (k: int) => if k >= 0 then PowerSum(xs, ws, k) else ZERO
  }

  lemma SumSequenceStarts(xs: seq<Elt>, ws: seq<Elt>, s: int -> Elt)
    requires |xs| == |ws| && s == SumSequence(xs, ws)
    ensures StartsAtZero(s, xs, ws)
  {
    hide PowerSum;
  }

  function Geometric(x: Elt): int -> Elt {
    (k: int) => if k >= 0 then Power(x, k) else ZERO
  }

  lemma GeometricValues(x: Elt, g: int -> Elt)
    requires g == Geometric(x)
    ensures forall k {:trigger g(k)} :: g(k) == if k >= 0 then Power(x, k) else ZERO
  {
    hide Power;
  }

  /** A geometric sequence delayed by its own ratio is an impulse. */
  lemma GeometricImpulse(x: Elt, g: int -> Elt, d: int -> Elt)
    requires forall k {:trigger g(k)} :: g(k) == if k >= 0 then Power(x, k) else ZERO
    requires forall k {:trigger d(k)} :: d(k) == Add(g(k), Mul(x, g(k - 1)))
    ensures Impulse(d)
  {
    hide Add, Mul, Power;
    forall k
      ensures d(k) == if k == 0 then ONE else ZERO
    {
      assert d(k) == Add(g(k), Mul(x, g(k - 1)));
      MulOne(x);
      if k > 0 {
        PowerNext(x, k - 1);
        AddZero(Power(x, k));
      } else if k == 0 {
        PowerZeroOne(x);
        AddZero(ONE);
      } else {
        AddZero(ZERO);
      }
    }
  }

  lemma PowerZeroOne(x: Elt)
    ensures Power(x, 0) == ONE
  {}

  lemma {:induction false} EvaluatorCoefficient(xs: seq<Elt>, ws: seq<Elt>, s: int -> Elt, n: nat)
    requires |xs| == |ws| && StartsAtZero(s, xs, ws) && n < |xs|
    ensures Act(Locator(xs), s, n) == Evaluator(xs, ws)[n]
    decreases |xs|
  {
    hide Add, Mul, Apply, TimesLinear, Act, Delayed, StartsAtZero, SumSequence, Geometric, Impulse;
    var x0, w0 := xs[0], ws[0];
    var l := Locator(xs[1..]);
    var rest, g := SumSequence(xs[1..], ws[1..]), Geometric(x0);
    SumSequenceStarts(xs[1..], ws[1..], rest);
    GeometricValues(x0, g);
    SplitFirst(xs, ws, s, rest, g);
    ActLinear(Locator(xs), s, rest, g, w0, n);
    // the first location: an impulse
    var d := Delayed(g, x0);
    DelayedValues(g, x0, d);
    GeometricImpulse(x0, g, d);
    TimesLinearAct(l, x0, g, d, n);
    ActImpulse(l, d, n);
    // the other locations
    var t := Delayed(rest, x0);
    DelayedValues(rest, x0, t);
    TimesLinearAct(l, x0, rest, t, n);
    ActDelayed(l, t, rest, x0, n);
    var ev := Evaluator(xs[1..], ws[1..]);
    if n < |xs| - 1 { EvaluatorCoefficient(xs[1..], ws[1..], rest, n); } else { PastTheEnd(xs[1..], ws[1..], rest, n); }
    if n > 0 { EvaluatorCoefficient(xs[1..], ws[1..], rest, n - 1); } else { BeforeTheStart(l, rest, xs[1..], ws[1..]); }
    EvaluatorStep(ev, l, x0, w0, n);
  }

  lemma EvaluatorStep(ev: Poly, l: Poly, x0: Elt, w0: Elt, n: nat)
    requires |l| == |ev| + 1 && n < |l|
    ensures Plus(TimesLinear(ev, x0), Scaled(l, w0))[n]
         == Add(Add(if n < |ev| then ev[n] else ZERO, if n == 0 then ZERO else Mul(x0, ev[n - 1])), Mul(w0, l[n]))
  {
    hide Add, Mul;
  }

  lemma SplitFirst(xs: seq<Elt>, ws: seq<Elt>, s: int -> Elt, rest: int -> Elt, g: int -> Elt)
    requires StartsAtZero(s, xs, ws) && |xs| > 0 && StartsAtZero(rest, xs[1..], ws[1..])
    requires forall k {:trigger g(k)} :: g(k) == if k >= 0 then Power(xs[0], k) else ZERO
    ensures forall k {:trigger s(k)} :: s(k) == Add(rest(k), Mul(ws[0], g(k)))
  {
    hide Add, Mul;
    forall k {:trigger s(k)}
      ensures s(k) == Add(rest(k), Mul(ws[0], g(k)))
    {
      assert g(k) == if k >= 0 then Power(xs[0], k) else ZERO;
      if k >= 0 {
        AddComm(Mul(ws[0], Power(xs[0], k)), PowerSum(xs[1..], ws[1..], k));
      } else {
        MulOne(ws[0]);
        AddZero(ZERO);
      }
    }
  }

  lemma ActImpulse(p: Poly, d: int -> Elt, n: nat)
    requires Impulse(d) && n < |p|
    ensures Act(p, d, n) == p[n]
  {
    ImpulseResponse(p, d, n, |p|);
  }

  lemma ActDelayed(p: Poly, t: int -> Elt, s: int -> Elt, a: Elt, n: int)
    requires forall k {:trigger t(k)} :: t(k) == Add(s(k), Mul(a, s(k - 1)))
    ensures Act(p, t, n) == Add(Act(p, s, n), Mul(a, Act(p, s, n - 1)))
  {
    hide Add, Mul, Apply;
    ApplyLinear(p, t, s, s, a, 1, n, |p|);
  }

  lemma PastTheEnd(xs: seq<Elt>, ws: seq<Elt>, s: int -> Elt, n: nat)
    requires StartsAtZero(s, xs, ws) && n >= |xs|
    ensures Act(Locator(xs), s, n) == ZERO
  {
    hide PowerSum, Act, Locator;
    LocatorKills(xs, ws, s, 0, n + 1, n);
  }

  lemma BeforeTheStart(p: Poly, s: int -> Elt, xs: seq<Elt>, ws: seq<Elt>)
    requires StartsAtZero(s, xs, ws)
    ensures Act(p, s, -1) == ZERO
    ensures forall a {:trigger Mul(a, ZERO)} :: Mul(a, ZERO) == ZERO
  {
    hide PowerSum, Add, Mul;
    ApplyZeros(p, s, -1, |p|);
    forall a: Elt
      ensures Mul(a, ZERO) == ZERO
    {
      MulOne(a);
    }
  }

  // ---- compute_z_poly

  /** z(x): the locator plus x times its product with the syndromes, cut at the degree. */
  ghost predicate ZPoly(z: Poly, sigma: Poly, deg: nat, s: int -> Elt) {
    && |z| == |sigma| == DELTA + 1 && z[0] == ONE
    && forall i :: 1 <= i <= DELTA ==>
         z[i] == if i <= deg then Add(sigma[i], Apply(sigma, s, i - 1, i)) else if i == 1 then s(0) else ZERO
  }

  method ComputeZPoly(sigma: Poly, deg: nat, syndromes: seq<Elt>) returns (z: Poly)
    requires |sigma| == DELTA + 1 && |syndromes| == 2 * DELTA && sigma[0] == ONE
    ensures ZPoly(z, sigma, deg, Symbols(syndromes))
  {
    hide Add, Mul;
    ghost var s := Symbols(syndromes);
    z := [ONE];
    var i := 1;
    while i <= DELTA
      invariant 1 <= i <= DELTA + 1 && |z| == i && z[0] == ONE
      invariant forall k :: 1 <= k < i ==>
        z[k] == if k <= deg then Add(sigma[k], Apply(sigma, s, k - 1, k)) else if k == 1 then s(0) else ZERO
    {
      var c := ZCoefficient(sigma, deg, syndromes, i);
      z := z + [c];
      i := i + 1;
    }
  }

  /** One coefficient: the masked sigma[i], the syndrome i - 1 (never masked for i = 1) and the cross terms. */
  method ZCoefficient(sigma: Poly, deg: nat, syndromes: seq<Elt>, i: nat) returns (c: Elt)
    requires |sigma| == DELTA + 1 && |syndromes| == 2 * DELTA && sigma[0] == ONE && 1 <= i <= DELTA
    ensures c == if i <= deg then Add(sigma[i], Apply(sigma, Symbols(syndromes), i - 1, i)) else if i == 1 then syndromes[0] else ZERO
  {
    hide Add, Mul;
    ghost var s := Symbols(syndromes);
    var mask := i <= deg;
    c := if mask then sigma[i] else ZERO;
    ghost var sum := syndromes[i - 1];
    MulOne(sum);
    AddZero(sum);
    assert Apply(sigma, s, i - 1, 0) == ZERO;
    if i == 1 || mask {
      AddZero(syndromes[i - 1]);
      c := Add(c, syndromes[i - 1]);
    }
    var j := 1;
    while j < i
      invariant 1 <= j <= i
      invariant sum == Apply(sigma, s, i - 1, j)
      invariant c == if mask then Add(sigma[i], sum) else if i == 1 then syndromes[0] else ZERO
    {
      if mask {
        AddAssoc(sigma[i], sum, Mul(sigma[j], syndromes[i - j - 1]));
        c := Add(c, Mul(sigma[j], syndromes[i - j - 1]));
      }
      sum := Add(sum, Mul(sigma[j], syndromes[i - j - 1]));
      j := j + 1;
    }
  }

  lemma {:induction false} ApplySame(p: Poly, q: Poly, s: int -> Elt, t: int -> Elt, n: nat, m: nat)
    requires m <= |p| && m <= |q| && m <= n + 1
    requires forall i :: 0 <= i < m ==> p[i] == q[i]
    requires forall k :: 0 <= k <= n ==> s(k) == t(k)
    ensures Apply(p, s, n, m) == Apply(q, t, n, m)
  {
    hide Add, Mul;
    if m > 0 { ApplySame(p, q, s, t, n, m - 1); }
  }

  lemma {:induction false} ApplyBeforeStart(p: Poly, s: int -> Elt, n: nat, m: nat)
    requires n + 1 <= m <= |p| && forall k :: k < 0 ==> s(k) == ZERO
    ensures Apply(p, s, n, m) == Apply(p, s, n, n + 1)
  {
    hide Add, Mul;
    if m > n + 1 {
      ApplyBeforeStart(p, s, n, m - 1);
      MulOne(p[m - 1]);
      AddZero(Apply(p, s, n, m - 1));
    }
  }

  /** The coefficients of z for an error pattern are those of Locator + X * Evaluator. */
  lemma ZCoefficients(z: Poly, xs: seq<Elt>, ws: seq<Elt>, s: int -> Elt)
    requires ErrorPattern(xs, ws, s) && ZPoly(z, Padded(Locator(xs)), |xs|, s)
    ensures z == Plus(Padded(Locator(xs)), Padded([ZERO] + Evaluator(xs, ws)))
  {
    hide Add, Mul, Apply, PowerSum, Locator, Evaluator, Act;
    var l := Locator(xs);
    var t := SumSequence(xs, ws);
    SumSequenceStarts(xs, ws, t);
    var right := Plus(Padded(l), Padded([ZERO] + Evaluator(xs, ws)));
    LocatorConstant(xs);
    AddZero(ONE);
    AddZero(ZERO);
    if xs == [] { NoErrorSum(xs, ws); }
    forall i | 0 <= i <= DELTA
      ensures z[i] == right[i]
    {
      if 1 <= i <= |xs| {
        EvaluatorCoefficient(xs, ws, t, i - 1);
        assert Act(l, t, i - 1) == Apply(l, t, i - 1, |l|) by { ActUnfold(l, t, i - 1); }
        ApplyBeforeStart(l, t, i - 1, |l|);
        ApplySame(Padded(l), l, s, t, i - 1, i);
      }
    }
    assert z == right;
  }

  lemma NoErrorSum(xs: seq<Elt>, ws: seq<Elt>)
    requires xs == [] && ws == []
    ensures PowerSum(xs, ws, 0) == ZERO
  {}

  /** The first syndrome that compute_z_poly does not mask is zero whenever compute_elp returns degree 0. */
  lemma UnmaskedIsZero(sigma: Poly, s: int -> Elt)
    requires Generates(sigma, 0, s, 2 * DELTA)
    ensures s(0) == ZERO
  {
    hide Add, Mul;
    ApplyHead(sigma, s, 0, |sigma|);
    assert Act(sigma, s, 0) == ZERO;
  }

  /** So z is zero beyond the degree, as if every coefficient were masked. */
  lemma ZPolyMasked(z: Poly, sigma: Poly, deg: nat, s: int -> Elt, i: nat)
    requires ZPoly(z, sigma, deg, s) && Generates(sigma, deg, s, 2 * DELTA) && deg < i <= DELTA
    ensures z[i] == ZERO
  {
    hide Add, Mul, Apply, Act;
    if deg == 0 { UnmaskedIsZero(sigma, s); }
  }

  lemma ActUnfold(p: Poly, s: int -> Elt, n: int)
    ensures Act(p, s, n) == Apply(p, s, n, |p|)
  {}

  /** Forney: z(1/X_m) is the error value times the product of the other factors, which is not zero. */
  lemma Forney(z: Poly, xs: seq<Elt>, ws: seq<Elt>, s: int -> Elt, m: nat, x: Elt, e: Elt)
    requires ErrorPattern(xs, ws, s) && ZPoly(z, Padded(Locator(xs)), |xs|, s)
    requires m < |xs| && Mul(xs[m], x) == ONE && ws[m] == Mul(e, xs[m])
    ensures Value(z, x) == Mul(e, Factors(Without(xs, m), x))
    ensures Factors(Without(xs, m), x) != ZERO
  {
    hide Add, Mul, Value, Locator, Evaluator, Padded, ZPoly, Plus, PowerSum, Factors;
    var l, ev := Locator(xs), Evaluator(xs, ws);
    ZCoefficients(z, xs, ws, s);
    ValuePlus(Padded(l), Padded([ZERO] + ev), x);
    PaddedValue(l, x);
    PaddedValue([ZERO] + ev, x);
    ValueCons(ZERO, ev, x);
    LocatorRoot(xs, x);
    EvaluatorValue(xs, ws, m, x);
    var f := Factors(Without(xs, m), x);
    AddZero(Mul(x, Value(ev, x)));
    // x * (e * X_m * f) = e * f
    MulAssoc(x, ws[m], f);
    MulSwap(x, e, xs[m]);
    MulComm(x, xs[m]);
    MulOne(e);
    OthersNonzero(xs, m, x);
  }

  lemma OthersNonzero(xs: seq<Elt>, m: nat, x: Elt)
    requires Distinct(xs) && m < |xs| && Mul(xs[m], x) == ONE
    ensures Factors(Without(xs, m), x) != ZERO
  {
    hide Add, Mul, Value, Locator;
    var ys := Without(xs, m);
    LocatorValue(ys, x);
    LocatorRoot(ys, x);
    if Factors(ys, x) == ZERO {
      var l :| 0 <= l < |ys| && Mul(ys[l], x) == ONE;
      var n := if l < m then l else l + 1;
      assert ys[l] == xs[n];
      MulOne(xs[m]);
      OneIsNotZero();
      MulComm(x, xs[m]);
      MulComm(x, xs[n]);
      MulCancel(x, xs[m], xs[n]);
    }
  }
}
