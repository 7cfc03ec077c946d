/** The polynomial found by compute_elp is unique and, for at most 15 errors, is the error locator. */
module ErrorLocator {
  import opened Gf256
  import opened GfArithmetic
  import opened Polynomials
  import opened PowerSums
  import opened Berlekamp

  // ---- uniqueness of the shortest recurrence

  /** The difference of p and q, freed of its first e zero coefficients and made monic at 0. */
  function Difference(p: Poly, q: Poly, e: nat): Poly
    requires |p| == |q| && e < |p|
  {
    seq(|p| - e, j requires 0 <= j < |p| - e => Mul(Inverse(Add(p[e], q[e])), Add(p[j + e], q[j + e])))
  }

  lemma {:induction false} DifferenceAction(p: Poly, q: Poly, e: nat, s: int -> Elt, k: int, m: nat)
    requires |p| == |q| && e < |p| && e <= m <= |p|
    requires forall i :: 0 <= i < e ==> p[i] == q[i]
    ensures Apply(Difference(p, q, e), s, k, m - e)
         == Mul(Inverse(Add(p[e], q[e])), Add(Apply(p, s, k + e, m), Apply(q, s, k + e, m)))
  {
    hide Add, Mul, Inverse;
    var c := Inverse(Add(p[e], q[e]));
    if m == e {
      ApplyAgree(p, q, s, k + e, e);
      AddZero(Apply(p, s, k + e, e));
      MulOne(c);
    } else {
      DifferenceAction(p, q, e, s, k, m - 1);
      var v := s(k + e - (m - 1));
      assert k - (m - 1 - e) == k + e - (m - 1);
      MulAssoc(c, Add(p[m - 1], q[m - 1]), v);
      MulAddLeft(p[m - 1], q[m - 1], v);
      MulAdd(c, Add(Apply(p, s, k + e, m - 1), Apply(q, s, k + e, m - 1)), Add(Mul(p[m - 1], v), Mul(q[m - 1], v)));
      AddRegroup(Apply(p, s, k + e, m - 1), Apply(q, s, k + e, m - 1), Mul(p[m - 1], v), Mul(q[m - 1], v));
    }
  }

  lemma {:induction false} FirstFailure(p: Poly, len: nat, s: int -> Elt, n: nat, end: nat) returns (f: nat)
    requires Generates(p, len, s, n) && n <= end && !Generates(p, len, s, end)
    ensures n <= f < end && Generates(p, len, s, f) && Act(p, s, f) != ZERO
    decreases end - n
  {
    hide Act;
    if Generates(p, len, s, n + 1) {
      f := FirstFailure(p, len, s, n + 1, end);
    } else {
      f := n;
    }
  }

  lemma DifferenceGenerates(p: Poly, q: Poly, len: nat, s: int -> Elt, n: nat, e: nat)
    requires |p| == |q| && Generates(p, len, s, n) && Generates(q, len, s, n)
    requires e < |p| && p[e] != q[e] && (forall i :: 0 <= i < e ==> p[i] == q[i])
    ensures 0 < e <= len && Generates(Difference(p, q, e), len - e, s, if n >= e then n - e else 0)
  {
    hide Add, Mul, Inverse, Apply;
    var c := Inverse(Add(p[e], q[e]));
    var d := Difference(p, q, e);
    AddCancel(p[e], q[e]);
    InverseCorrect(Add(p[e], q[e]));
    MulComm(c, Add(p[e], q[e]));
    assert d[0] == ONE;
    forall j | len - e < j < |d|
      ensures d[j] == ZERO
    {
      AddZero(ZERO);
      MulOne(c);
    }
    forall k | len - e <= k < n - e
      ensures Act(d, s, k) == ZERO
    {
      DifferenceAction(p, q, e, s, k, |p|);
      assert Act(p, s, k + e) == ZERO && Act(q, s, k + e) == ZERO;
      AddZero(ZERO);
      MulOne(c);
    }
  }

  /** Half the number of symbols is long enough: the shortest recurrence is the only one of its length. */
  lemma ShortestIsUnique(p: Poly, q: Poly, len: nat, s: int -> Elt)
    requires |p| == |q| == DELTA + 1 && len <= DELTA
    requires Generates(p, len, s, 2 * DELTA) && Generates(q, len, s, 2 * DELTA)
    requires Shortest(len, s, 2 * DELTA)
    ensures p == q
  {
    hide Act;
    var e := 0;
    while e < |p| && p[e] == q[e]
      invariant 0 <= e <= |p| && forall i :: 0 <= i < e ==> p[i] == q[i]
    {
      e := e + 1;
    }
    if e < |p| {
      DifferenceGenerates(p, q, len, s, 2 * DELTA, e);
      var d := Difference(p, q, e);
      if !Generates(d, len - e, s, 2 * DELTA) {
        var f := FirstFailure(d, len - e, s, 2 * DELTA - e, 2 * DELTA);
        MasseyBound(d, len - e, p, len, s, f);
      }
    }
  }

  // ---- the locator of an error pattern

  /** p * (1 + a*x). */
  function TimesLinear(p: Poly, a: Elt): (r: Poly)
    ensures |r| == |p| + 1
  {
    seq(|p| + 1, i requires 0 <= i < |p| + 1 =>
      Add(if i < |p| then p[i] else ZERO, if i == 0 then ZERO else Mul(a, p[i - 1])))
  }

  /** The product of 1 + x*X over the error locations X. */
  function Locator(xs: seq<Elt>): (r: Poly)
    ensures |r| == |xs| + 1
  {
    if xs == [] then [ONE] else TimesLinear(Locator(xs[1..]), xs[0])
  }

  lemma {:induction false} TimesLinearAction(p: Poly, a: Elt, s: int -> Elt, n: int, m: nat)
    requires m <= |p|
    ensures Apply(TimesLinear(p, a), s, n, m)
         == if m == 0 then ZERO else Add(Apply(p, s, n, m), Mul(a, Apply(p, s, n - 1, m - 1)))
  {
    hide Add, Mul;
    if m == 1 {
      assert Apply(p, s, n, 0) == ZERO == Apply(p, s, n - 1, 0) == Apply(TimesLinear(p, a), s, n, 0);
      MulOne(a);
      AddZero(p[0]);
      AddZero(Mul(p[0], s(n)));
      AddZero(Add(ZERO, Mul(p[0], s(n))));
    } else if m > 1 {
      TimesLinearAction(p, a, s, n, m - 1);
      var v := s(n - (m - 1));
      assert n - 1 - (m - 2) == n - (m - 1);
      MulAddLeft(p[m - 1], Mul(a, p[m - 2]), v);
      MulAssoc(a, p[m - 2], v);
      AddRegroup(Apply(p, s, n, m - 1), Mul(a, Apply(p, s, n - 1, m - 2)), Mul(p[m - 1], v), Mul(a, Mul(p[m - 2], v)));
      MulAdd(a, Apply(p, s, n - 1, m - 2), Mul(p[m - 2], v));
    }
  }

  /** The sequence s(k) + a*s(k-1). */
  function Delayed(s: int -> Elt, a: Elt): int -> Elt {
    (k: int) => Add(s(k), Mul(a, s(k - 1)))
  }

  lemma DelayedValues(s: int -> Elt, a: Elt, t: int -> Elt)
    requires t == Delayed(s, a)
    ensures forall k {:trigger t(k)} :: t(k) == Add(s(k), Mul(a, s(k - 1)))
  {
    hide Add, Mul;
  }

  /** Multiplying by 1 + a*x acts as the polynomial on the delayed sequence t. */
  lemma TimesLinearAct(p: Poly, a: Elt, s: int -> Elt, t: int -> Elt, n: int)
    requires |p| > 0
    requires forall k {:trigger t(k)} :: t(k) == Add(s(k), Mul(a, s(k - 1)))
    ensures Act(TimesLinear(p, a), s, n) == Act(p, t, n)
  {
    hide Add, Mul, Apply, TimesLinear;
    var m, q, v := |p|, TimesLinear(p, a), s(n - |p|);
    ApplyUnfold(q, s, n, m);
    ApplyUnfold(p, s, n - 1, m - 1);
    assert n - 1 - (m - 1) == n - m;
    TimesLinearTop(p, a);
    TimesLinearAction(p, a, s, n, m);
    ApplyLinear(p, t, s, s, a, 1, n, m);
    MulAssoc(a, p[m - 1], v);
    AddAssoc(Apply(p, s, n, m), Mul(a, Apply(p, s, n - 1, m - 1)), Mul(a, Mul(p[m - 1], v)));
    MulAdd(a, Apply(p, s, n - 1, m - 1), Mul(p[m - 1], v));
  }

  lemma TimesLinearTop(p: Poly, a: Elt)
    requires |p| > 0
    ensures TimesLinear(p, a)[|p|] == Mul(a, p[|p| - 1])
  {
    AddZero(Mul(a, p[|p| - 1]));
  }

  lemma ApplyUnfold(p: Poly, s: int -> Elt, n: int, m: nat)
    requires m < |p|
    ensures Apply(p, s, n, m + 1) == Add(Apply(p, s, n, m), Mul(p[m], s(n - m)))
  {
    hide Add, Mul;
  }

  /** The locator annihilates the power sums of its locations, one symbol per location later. */
  lemma {:induction false} LocatorKills(xs: seq<Elt>, ws: seq<Elt>, s: int -> Elt, m: nat, end: nat, k: nat)
    requires |xs| == |ws|
    requires forall j :: m <= j < end ==> s(j) == PowerSum(xs, ws, j - m)
    requires m + |xs| <= k < end
    ensures Act(Locator(xs), s, k) == ZERO
    decreases |xs|
  {
    hide Add, Mul, Apply, TimesLinear, Delayed, Act;
    if xs == [] {
      assert s(k) == ZERO;
      ActZero(Locator(xs), s, k);
    } else {
      var t := Delayed(s, xs[0]);
      var d := Damped(xs[1..], ws[1..], xs[0]);
      DelayedValues(s, xs[0], t);
      forall j | m + 1 <= j < end
        ensures t(j) == PowerSum(xs[1..], d, j - (m + 1))
      {
        assert s(j) == PowerSum(xs, ws, j - m) && s(j - 1) == PowerSum(xs, ws, j - 1 - m);
        EliminateHead(xs, ws, j - m - 1);
      }
      hide PowerSum;
      LocatorKills(xs[1..], d, t, m + 1, end, k);
      TimesLinearAct(Locator(xs[1..]), xs[0], s, t, k);
    }
  }

  lemma ActZero(p: Poly, s: int -> Elt, k: int)
    requires |p| == 1 && s(k) == ZERO
    ensures Act(p, s, k) == ZERO
  {
    ApplyZeros(p, s, k, 1);
  }

  lemma {:induction false} LocatorConstant(xs: seq<Elt>)
    ensures Locator(xs)[0] == ONE
  {
    hide Add, Mul;
    if xs != [] {
      LocatorConstant(xs[1..]);
      AddZero(ONE);
    }
  }

  /** The weights ws[l] * (q[0]*xs[l]^(m-1) + .. + q[m-1]). */
  function Weighted(xs: seq<Elt>, ws: seq<Elt>, q: Poly, m: nat): (r: seq<Elt>)
    requires |xs| == |ws| && m <= |q|
    ensures |r| == |xs|
  {
    seq(|xs|, l requires 0 <= l < |xs| => Mul(ws[l], Horner(q, xs[l], m)))
  }

  lemma {:induction false} PowerSumMix(xs: seq<Elt>, us: seq<Elt>, ws: seq<Elt>, ts: seq<Elt>, c: Elt, k: nat)
    requires |xs| == |us| == |ws| == |ts|
    requires forall l :: 0 <= l < |xs| ==> ts[l] == Add(Mul(us[l], xs[l]), Mul(c, ws[l]))
    ensures PowerSum(xs, ts, k) == Add(PowerSum(xs, us, k + 1), Mul(c, PowerSum(xs, ws, k)))
  {
    hide Add, Mul;
    if xs == [] {
      MulOne(c);
      AddZero(ZERO);
    } else {
      var p := Power(xs[0], k);
      PowerSumMix(xs[1..], us[1..], ws[1..], ts[1..], c, k);
      assert ts[0] == Add(Mul(us[0], xs[0]), Mul(c, ws[0]));
      MulAddLeft(Mul(us[0], xs[0]), Mul(c, ws[0]), p);
      MulAssoc(us[0], xs[0], p);
      MulAssoc(c, ws[0], p);
      MulAdd(c, Mul(ws[0], p), PowerSum(xs[1..], ws[1..], k));
      AddRegroup(Mul(us[0], Power(xs[0], k + 1)), Mul(c, Mul(ws[0], p)),
                 PowerSum(xs[1..], us[1..], k + 1), Mul(c, PowerSum(xs[1..], ws[1..], k)));
    }
  }

  /** Acting on power sums gives power sums weighted by the values of q. */
  lemma {:induction false} ActOnPowerSums(q: Poly, xs: seq<Elt>, ws: seq<Elt>, s: int -> Elt, k: nat, m: nat)
    requires |xs| == |ws| && m <= |q| && m <= k + 1
    requires forall j :: 0 <= j <= k ==> s(j) == PowerSum(xs, ws, j)
    ensures Apply(q, s, k, m) == PowerSum(xs, Weighted(xs, ws, q, m), k + 1 - m)
  {
    hide Add, Mul;
    if m == 0 {
      forall l | 0 <= l < |xs|
        ensures Weighted(xs, ws, q, 0)[l] == ZERO
      {
        MulOne(ws[l]);
      }
      PowerSumOfZeros(xs, Weighted(xs, ws, q, 0), k + 1);
    } else {
      ActOnPowerSums(q, xs, ws, s, k, m - 1);
      var us, ts := Weighted(xs, ws, q, m - 1), Weighted(xs, ws, q, m);
      forall l | 0 <= l < |xs|
        ensures ts[l] == Add(Mul(us[l], xs[l]), Mul(q[m - 1], ws[l]))
      {
        var h := Horner(q, xs[l], m - 1);
        MulAdd(ws[l], Mul(xs[l], h), q[m - 1]);
        MulComm(xs[l], h);
        MulAssoc(ws[l], h, xs[l]);
        MulComm(ws[l], q[m - 1]);
      }
      PowerSumMix(xs, us, ws, ts, q[m - 1], k + 1 - m);
    }
  }

  lemma {:induction false} PowerSumRaised(xs: seq<Elt>, ws: seq<Elt>, ts: seq<Elt>, b: nat, k: nat)
    requires |xs| == |ws| == |ts|
    requires forall l :: 0 <= l < |xs| ==> ts[l] == Mul(ws[l], Power(xs[l], b))
    ensures PowerSum(xs, ts, k) == PowerSum(xs, ws, k + b)
  {
    hide Add, Mul;
    if xs != [] {
      PowerSumRaised(xs[1..], ws[1..], ts[1..], b, k);
      PowerAdd(xs[0], b, k);
      MulAssoc(ws[0], Power(xs[0], b), Power(xs[0], k));
    }
  }

  /** The symbols s(0..29) of the error values ws at the error locations xs. */
  ghost predicate ErrorPattern(xs: seq<Elt>, ws: seq<Elt>, s: int -> Elt) {
    && |xs| == |ws| <= DELTA && Distinct(xs)
    && (forall l :: 0 <= l < |xs| ==> xs[l] != ZERO && ws[l] != ZERO)
    && (forall j :: 0 <= j < 2 * DELTA ==> s(j) == PowerSum(xs, ws, j))
  }

  /** Fewer symbols than errors cannot explain the syndromes. */
  lemma AtLeastTheErrors(q: Poly, len: nat, xs: seq<Elt>, ws: seq<Elt>, s: int -> Elt)
    requires ErrorPattern(xs, ws, s) && len <= DELTA && Generates(q, len, s, 2 * DELTA)
    ensures len >= |xs|
  {
    hide Add, Mul, Apply, PowerSum, Power, Horner, Weighted;
    var m := if |q| <= len then |q| else len + 1;
    var b := len + 1 - m;
    var ts := Weighted(xs, ws, q, m);
    var us := seq(|xs|, l requires 0 <= l < |xs| => Mul(ts[l], Power(xs[l], b)));
    forall k: nat | k < |xs|
      ensures PowerSum(xs, us, k) == ZERO
    {
      ApplyTail(q, s, k + len, m);
      ActOnPowerSums(q, xs, ws, s, k + len, m);
      assert Act(q, s, k + len) == ZERO;
      PowerSumRaised(xs, ts, us, b, k);
    }
    WeightsVanish(xs, us);
    forall l | 0 <= l < |xs|
      ensures Horner(q[..m], xs[l], m) == ZERO
    {
      assert us[l] == ZERO;
      PowerNonzero(xs[l], b);
      MulNonzero(ts[l], Power(xs[l], b));
      assert ts[l] == Mul(ws[l], Horner(q, xs[l], m)) by { WeightedAt(xs, ws, q, m, l); }
      MulNonzero(ws[l], Horner(q, xs[l], m));
      HornerPrefix(q, xs[l], m, m);
    }
    RootsBound(q[..m], xs);
  }

  lemma WeightedAt(xs: seq<Elt>, ws: seq<Elt>, q: Poly, m: nat, l: nat)
    requires |xs| == |ws| && m <= |q| && l < |xs|
    ensures Weighted(xs, ws, q, m)[l] == Mul(ws[l], Horner(q, xs[l], m))
  {
    hide Mul;
  }

  lemma {:induction false} HornerPrefix(q: Poly, x: Elt, n: nat, m: nat)
    requires m <= n <= |q|
    ensures Horner(q[..n], x, m) == Horner(q, x, m)
  {
    hide Add, Mul;
    if m > 0 { HornerPrefix(q, x, n, m - 1); }
  }

  /** p with zero coefficients appended up to length DELTA + 1. */
  function Padded(p: Poly): (r: Poly)
    requires |p| <= DELTA + 1
    ensures |r| == DELTA + 1
  {
    p + seq(DELTA + 1 - |p|, i => ZERO)
  }

  lemma PaddedKills(xs: seq<Elt>, ws: seq<Elt>, s: int -> Elt, k: int)
    requires ErrorPattern(xs, ws, s) && |xs| <= k < 2 * DELTA
    ensures Act(Padded(Locator(xs)), s, k) == ZERO
  {
    hide Add, Mul, Apply, PowerSum;
    var p := Padded(Locator(xs));
    LocatorKills(xs, ws, s, 0, 2 * DELTA, k);
    ApplyTail(p, s, k, |xs| + 1);
    assert p[..|xs| + 1] == Locator(xs)[..|xs| + 1];
    ApplyAgree(p, Locator(xs), s, k, |xs| + 1);
  }

  lemma LocatorGenerates(xs: seq<Elt>, ws: seq<Elt>, s: int -> Elt)
    requires ErrorPattern(xs, ws, s)
    ensures Generates(Padded(Locator(xs)), |xs|, s, 2 * DELTA)
  {
    hide Add, Mul, Apply, PowerSum, Act;
    LocatorConstant(xs);
    forall k | |xs| <= k < 2 * DELTA
      ensures Act(Padded(Locator(xs)), s, k) == ZERO
    {
      PaddedKills(xs, ws, s, k);
    }
  }

  /** For at most 15 errors the result of compute_elp is the number of errors and their locator. */
  lemma LocatorFound(xs: seq<Elt>, ws: seq<Elt>, s: int -> Elt, sigma: Poly, degSigma: nat)
    requires ErrorPattern(xs, ws, s) && |sigma| == DELTA + 1
    requires degSigma <= DELTA ==> Generates(sigma, degSigma, s, 2 * DELTA)
    requires Shortest(degSigma, s, 2 * DELTA)
    ensures degSigma == |xs|
    ensures sigma == Padded(Locator(xs))
  {
    hide Act;
    LocatorGenerates(xs, ws, s);
    AtLeastTheErrors(sigma, degSigma, xs, ws, s);
    ShortestIsUnique(sigma, Padded(Locator(xs)), degSigma, s);
  }
}
