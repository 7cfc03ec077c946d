/** compute_elp: Berlekamp's algorithm in place, and why its result is the shortest and the only recurrence. */
module Berlekamp {
  import opened Gf256
  import opened GfArithmetic
  import opened Polynomials

  const DELTA := 15

  /** The syndromes as a sequence indexed by all integers. */
  function Symbols(syndromes: seq<Elt>): int -> Elt {
    (k: int) => if 0 <= k < |syndromes| then syndromes[k] else ZERO
  }

  /** p is a connection polynomial of length len for the symbols s(0), .., s(n-1). */
  ghost predicate Generates(p: Poly, len: nat, s: int -> Elt, n: nat) {
    && |p| > 0 && p[0] == ONE
    && (forall i :: len < i < |p| ==> p[i] == ZERO)
    && (forall k :: len <= k < n ==> Act(p, s, k) == ZERO)
  }

  /** Massey's bound: a recurrence that fails at n forces every recurrence that also explains n to be long. */
  lemma MasseyBound(p: Poly, len: nat, q: Poly, len': nat, s: int -> Elt, n: nat)
    requires Generates(p, len, s, n) && Act(p, s, n) != ZERO
    requires Generates(q, len', s, n + 1)
    ensures len' >= n + 1 - len
  {
    if len + len' <= n {
      hide Add, Mul, Apply;
      assert Act(q, s, n) == ZERO;
      ApplyExchange(q, p, s, n, |q|);
      forall i | 1 <= i < |q|
        ensures q[i] == ZERO || Act(p, s, n - i) == ZERO
      {
        if i <= len' { assert len <= n - i < n; }
      }
      ApplyHead(q, k => Act(p, s, k), n, |q|);
      forall i | 1 <= i < |p|
        ensures p[i] == ZERO || Apply(q, s, n - i, |q|) == ZERO
      {
        if i <= len { assert Act(q, s, n - i) == ZERO; }
      }
      ApplyHead(p, k => Apply(q, s, k, |q|), n, |p|);
    }
  }

  // ---- one step of the algorithm

  /** The bookkeeping between the rounds: (r, lenR) is the recurrence before the last length change, at index rho. */
  ghost predicate Saved(r: Poly, lenR: nat, rho: int, dp: Elt, len: nat, s: int -> Elt) {
    && -1 <= rho && len == rho + 1 - lenR
    && |r| == DELTA + 1 && dp != ZERO
    && if rho == -1 then lenR == 0 && r[0] == ONE && (forall i :: 0 < i < |r| ==> r[i] == ZERO)
       else Generates(r, lenR, s, rho) && Act(r, s, rho) == dp
  }

  /** The array X_sigma_p holds the low coefficients of X^e * r. */
  ghost predicate ShiftedBy(x: Poly, r: Poly, e: nat) {
    && |x| == |r|
    && forall i :: 0 <= i < |x| ==> x[i] == if i < e then ZERO else r[i - e]
  }

  /** Delaying the action: X^e * r acts at k as r acts at k - e, when no coefficient is cut off. */
  lemma {:induction false} ShiftedAction(x: Poly, r: Poly, e: nat, lenR: nat, s: int -> Elt, k: int, m: nat)
    requires ShiftedBy(x, r, e) && e + lenR < |x| && e <= m <= |x|
    ensures Apply(x, s, k, m) == Apply(r, s, k - e, m - e)
  {
    hide Add, Mul;
    if m == e {
      ApplyZeros(x, s, k, m);
    } else {
      ShiftedAction(x, r, e, lenR, s, k, m - 1);
    }
  }

  lemma {:induction false} ApplyTail(r: Poly, s: int -> Elt, k: int, m: nat)
    requires m <= |r| && forall i :: m <= i < |r| ==> r[i] == ZERO
    ensures Act(r, s, k) == Apply(r, s, k, m)
  {
    hide Add, Mul;
    ApplyTailFrom(r, s, k, m, |r|);
  }

  lemma {:induction false} ApplyTailFrom(r: Poly, s: int -> Elt, k: int, m: nat, n: nat)
    requires m <= n <= |r| && forall i :: m <= i < |r| ==> r[i] == ZERO
    ensures Apply(r, s, k, n) == Apply(r, s, k, m)
  {
    hide Add, Mul;
    if m < n {
      ApplyTailFrom(r, s, k, m, n - 1);
      MulOne(s(k - (n - 1)));
      AddZero(Apply(r, s, k, n - 1));
    }
  }

  /** Adding dd * x to p coefficient by coefficient. */
  ghost predicate AddedScaled(p': Poly, p: Poly, dd: Elt, x: Poly) {
    && |p'| == |p| == |x|
    && forall i :: 0 <= i < |p| ==> p'[i] == Add(p[i], Mul(dd, x[i]))
  }

  lemma {:induction false} AddedScaledAction(p': Poly, p: Poly, dd: Elt, x: Poly, s: int -> Elt, k: int, m: nat)
    requires AddedScaled(p', p, dd, x) && m <= |p|
    ensures Apply(p', s, k, m) == Add(Apply(p, s, k, m), Mul(dd, Apply(x, s, k, m)))
  {
    hide Add, Mul;
    if m == 0 {
      MulOne(dd);
      AddZero(ZERO);
    } else {
      var v := s(k - (m - 1));
      AddedScaledAction(p', p, dd, x, s, k, m - 1);
      MulAdd(p[m - 1], Mul(dd, x[m - 1]), v);
      MulAddLeft(p[m - 1], Mul(dd, x[m - 1]), v);
      MulAssoc(dd, x[m - 1], v);
      AddRegroup(Apply(p, s, k, m - 1), Mul(dd, Apply(x, s, k, m - 1)), Mul(p[m - 1], v), Mul(dd, Mul(x[m - 1], v)));
      MulAdd(dd, Apply(x, s, k, m - 1), Mul(x[m - 1], v));
    }
  }

  /** The correction removes the discrepancy at mu and keeps the recurrence below it. */
  lemma CorrectedGenerates(p': Poly, p: Poly, len: nat, d: Elt, r: Poly, lenR: nat, rho: int, dp: Elt,
                           x: Poly, s: int -> Elt, mu: nat)
    requires Generates(p, len, s, mu) && Act(p, s, mu) == d && d != ZERO && |p| == DELTA + 1
    requires Saved(r, lenR, rho, dp, len, s) && rho < mu
    requires ShiftedBy(x, r, mu - rho)
    requires AddedScaled(p', p, Mul(d, Inverse(dp)), x)
    requires len <= DELTA && mu + 1 - len <= DELTA
    ensures Generates(p', if mu + 1 - len > len then mu + 1 - len else len, s, mu + 1)
  {
    hide Add, Mul, Inverse, Apply;
    var dd, e := Mul(d, Inverse(dp)), mu - rho;
    var len' := if mu + 1 - len > len then mu + 1 - len else len;
    assert e + lenR == mu + 1 - len;
    assert x[0] == ZERO;
    MulOne(dd);
    AddZero(ONE);
    AddZero(ZERO);
    forall i | len' < i < |p'|
      ensures p'[i] == ZERO
    {
      assert x[i] == ZERO;
    }
    forall k | len' <= k < mu + 1
      ensures Act(p', s, k) == ZERO
    {
      AddedScaledAction(p', p, dd, x, s, k, |p|);
      ShiftedAction(x, r, e, lenR, s, k, |x|);
      ApplyTail(r, s, k - e, |x| - e);
      assert Act(x, s, k) == Act(r, s, k - e);
      assert rho != -1;
      if k < mu {
        assert Act(p, s, k) == ZERO;
        assert Act(r, s, k - e) == ZERO;
        MulOne(dd);
        AddZero(ZERO);
      } else {
        MulAssoc(d, Inverse(dp), dp);
        MulComm(Inverse(dp), dp);
        InverseCorrect(dp);
        MulOne(d);
        AddZero(d);
      }
    }
  }

  // ---- the method

  /** The invariant at the start of round mu; nothing is claimed once the length has passed DELTA. */
  ghost predicate Round(sigma: Poly, xsp: Poly, len: nat, r: Poly, lenR: nat, rho: int, dp: Elt, s: int -> Elt, mu: nat) {
    && |sigma| == |xsp| == DELTA + 1
    && Generates(sigma, len, s, mu)
    && Saved(r, lenR, rho, dp, len, s)
    && rho < mu
    && ShiftedBy(xsp, r, mu - rho)
  }

  /** No recurrence for the first n symbols is shorter than len, as far as lengths up to DELTA go. */
  ghost predicate Shortest(len: nat, s: int -> Elt, n: nat) {
    forall q: Poly, m: nat :: Generates(q, m, s, n) ==> m >= len || m > DELTA
  }

  /** The discrepancy of sigma at symbol mu. */
  method Discrepancy(sigma: array<Elt>, syndromes: seq<Elt>, mu: nat) returns (d: Elt)
    requires sigma.Length == DELTA + 1 && sigma[0] == ONE && mu < |syndromes|
    ensures (forall i :: mu < i < sigma.Length ==> sigma[i] == ZERO) ==> d == Act(sigma[..], Symbols(syndromes), mu)
  {
    hide Add, Mul;
    ghost var p, s := sigma[..], Symbols(syndromes);
    d := syndromes[mu];
    assert Apply(p, s, mu, 0) == ZERO;
    MulOne(d);
    AddZero(d);
    var i := 1;
    while i <= mu && i <= DELTA
      invariant 1 <= i <= DELTA + 1 && i <= mu + 1
      invariant d == Apply(p, s, mu, i)
    {
      d := Add(d, Mul(sigma[i], syndromes[mu - i]));
      i := i + 1;
    }
    if forall j :: mu < j < sigma.Length ==> sigma[j] == ZERO {
      ApplyTail(p, s, mu, i);
    }
  }

  /** sigma ^= dd * X_sigma_p on the indices 1..min(mu + 1, DELTA). */
  method AddScaled(sigma: array<Elt>, xsp: array<Elt>, dd: Elt, mu: nat)
    requires sigma.Length == xsp.Length == DELTA + 1 && sigma != xsp
    modifies sigma
    ensures forall i :: 0 <= i <= DELTA ==> sigma[i] == if 1 <= i <= mu + 1 then Add(old(sigma[i]), Mul(dd, xsp[i])) else old(sigma[i])
  {
    hide Add, Mul;
    var i := 1;
    while i <= mu + 1 && i <= DELTA
      invariant 1 <= i <= DELTA + 1 && i <= mu + 2
      invariant forall j :: 0 <= j <= DELTA ==> sigma[j] == if 1 <= j < i then Add(old(sigma[j]), Mul(dd, xsp[j])) else old(sigma[j])
    {
      sigma[i] := Add(sigma[i], Mul(dd, xsp[i]));
      i := i + 1;
    }
  }

  /** X_sigma_p becomes X * from, where from is the saved sigma or X_sigma_p itself; entry 0 is left alone. */
  method ShiftUp(xsp: array<Elt>, sigmaCopy: seq<Elt>, replace: bool)
    requires xsp.Length == DELTA + 1 && |sigmaCopy| == DELTA
    modifies xsp
    ensures xsp[0] == old(xsp[0])
    ensures forall i :: 1 <= i <= DELTA ==> xsp[i] == if replace then sigmaCopy[i - 1] else old(xsp[i - 1])
  {
    var i := DELTA;
    while i > 0
      invariant 0 <= i <= DELTA
      invariant forall j :: 0 <= j <= i ==> xsp[j] == old(xsp[j])
      invariant forall j :: i < j <= DELTA ==> xsp[j] == if replace then sigmaCopy[j - 1] else old(xsp[j - 1])
    {
      xsp[i] := if replace then sigmaCopy[i - 1] else xsp[i - 1];
      i := i - 1;
    }
  }

  function Longer(len: nat, mu: nat, d: Elt): nat {
    if d != ZERO && mu + 1 > 2 * len then mu + 1 - len else len
  }

  lemma StepGenerates(sigma: Poly, xsp: Poly, len: nat, r: Poly, lenR: nat, rho: int, dp: Elt, s: int -> Elt, mu: nat,
                      d: Elt, sigma': Poly)
    requires Round(sigma, xsp, len, r, lenR, rho, dp, s, mu) && d == Act(sigma, s, mu)
    requires |sigma'| == |sigma|
    requires forall i :: 0 <= i <= DELTA ==>
      sigma'[i] == if 1 <= i <= mu + 1 then Add(sigma[i], Mul(Mul(d, Inverse(dp)), xsp[i])) else sigma[i]
    requires Longer(len, mu, d) <= DELTA
    ensures Generates(sigma', Longer(len, mu, d), s, mu + 1)
  {
    hide Add, Mul, Inverse, Apply;
    var dd := Mul(d, Inverse(dp));
    forall i | 0 <= i < |sigma|
      ensures sigma'[i] == Add(sigma[i], Mul(dd, xsp[i]))
    {
      MulOne(dd);
      AddZero(sigma[i]);
    }
    if d == ZERO {
      MulOne(Inverse(dp));
      forall i | 0 <= i < |sigma|
        ensures sigma'[i] == sigma[i]
      {
        MulOne(xsp[i]);
        AddZero(sigma[i]);
      }
      assert sigma' == sigma;
    } else {
      CorrectedGenerates(sigma', sigma, len, d, r, lenR, rho, dp, xsp, s, mu);
    }
  }

  lemma StepShortest(sigma: Poly, len: nat, s: int -> Elt, mu: nat)
    requires len <= DELTA ==> Generates(sigma, len, s, mu)
    requires Shortest(len, s, mu)
    ensures Shortest(if len <= DELTA then Longer(len, mu, Act(sigma, s, mu)) else len, s, mu + 1)
  {
    hide Add, Mul, Apply, Act;
    var n := mu + 1;
    forall q: Poly, m: nat | Generates(q, m, s, n)
      ensures m >= (if len <= DELTA then Longer(len, mu, Act(sigma, s, mu)) else len) || m > DELTA
    {
      assert Generates(q, m, s, mu);
      if len <= DELTA && Act(sigma, s, mu) != ZERO {
        MasseyBound(sigma, len, q, m, s, mu);
      }
    }
  }

  /** A whole round: the new sigma and the shifted save satisfy the invariant for mu + 1. */
  lemma StepRound(sigma: Poly, xsp: Poly, len: nat, r: Poly, lenR: nat, rho: int, dp: Elt, s: int -> Elt, mu: nat,
                  d: Elt, sigma': Poly, xsp': Poly)
    requires Round(sigma, xsp, len, r, lenR, rho, dp, s, mu) && d == Act(sigma, s, mu) && len <= mu
    requires Generates(sigma', Longer(len, mu, d), s, mu + 1) && |sigma'| == |xsp'| == DELTA + 1
    requires xsp'[0] == xsp[0]
    requires forall i :: 1 <= i <= DELTA ==> xsp'[i] == if Longer(len, mu, d) > len then sigma[i - 1] else xsp[i - 1]
    ensures Longer(len, mu, d) == len ==> Round(sigma', xsp', len, r, lenR, rho, dp, s, mu + 1)
    ensures Longer(len, mu, d) > len ==> Round(sigma', xsp', Longer(len, mu, d), sigma, len, mu, d, s, mu + 1)
    ensures forall i :: mu + 1 < i <= DELTA ==> sigma'[i] == ZERO
  {
    hide Act;
  }

  lemma FirstRound(sigma: Poly, xsp: Poly, r: Poly, s: int -> Elt)
    requires |sigma| == |xsp| == |r| == DELTA + 1
    requires sigma[0] == ONE && (forall i :: 1 <= i <= DELTA ==> sigma[i] == ZERO) && r == sigma
    requires forall i :: 0 <= i <= DELTA ==> xsp[i] == if i == 1 then ONE else ZERO
    ensures Round(sigma, xsp, 0, r, 0, -1, ONE, s, 0) && Act(sigma, s, 0) == s(0)
  {
    ApplyHead(sigma, s, 0, DELTA + 1);
    hide Apply;
  }

  /** 16-bit subtraction. */
  function Sub16(a: nat, b: nat): nat { (a - b) % 0x1_0000 }

  /** The 16-bit tests of the source decide exactly whether the length grows. */
  lemma LengthTest(mu: nat, rho: int, pp: nat, len: nat, lenR: nat)
    requires -1 <= rho < mu < 2 * DELTA && len == rho + 1 - lenR && len <= mu
    requires pp == if rho == -1 then 0xFFFF else rho
    ensures Sub16(mu, pp) == mu - rho
    ensures Sub16(len, mu - rho + lenR) >= 0x8000 <==> mu + 1 > 2 * len
  {}

  method ComputeElp(sigma: array<Elt>, syndromes: seq<Elt>) returns (degSigma: nat)
    requires sigma.Length == DELTA + 1 && (forall i :: 0 <= i <= DELTA ==> sigma[i] == ZERO)
    requires |syndromes| == 2 * DELTA
    modifies sigma
    ensures sigma[0] == ONE
    ensures degSigma <= DELTA ==> Generates(sigma[..], degSigma, Symbols(syndromes), 2 * DELTA)
    ensures Shortest(degSigma, Symbols(syndromes), 2 * DELTA)
  {
    hide Add, Mul, Inverse, Act, Generates, Round, Shortest, Sub16;
    ghost var s := Symbols(syndromes);
    degSigma := 0;
    var degSigmaP: nat := 0;
    var xsp := new Elt[DELTA + 1](i => if i == 1 then ONE else ZERO);
    var pp := 0xFFFF;
    var dp := ONE;
    var d := syndromes[0];
    sigma[0] := ONE;

    ghost var r, rho := sigma[..], -1;
    FirstRound(sigma[..], xsp[..], r, s);
    NothingShorter(s);
    var mu := 0;
    while mu < 2 * DELTA
      invariant 0 <= mu < 2 * DELTA
      invariant degSigma == rho + 1 - degSigmaP && -1 <= rho < mu && degSigma <= mu
      invariant pp == if rho == -1 then 0xFFFF else rho
      invariant sigma[0] == ONE
      invariant degSigma <= DELTA ==> Round(sigma[..], xsp[..], degSigma, r, degSigmaP, rho, dp, s, mu)
      invariant degSigma <= DELTA ==> d == Act(sigma[..], s, mu)
      invariant Shortest(degSigma, s, mu)
    {
      ghost var sigma0, x0, len0, dp0 := sigma[..], xsp[..], degSigma, dp;
      var sigmaCopy := sigma[..DELTA];
      var degSigmaCopy := degSigma;
      var dd := Mul(d, Inverse(dp));
      AddScaled(sigma, xsp, dd, mu);

      LengthTest(mu, rho, pp, degSigma, degSigmaP);
      var degX := Sub16(mu, pp);
      var degXSigmaP := degX + degSigmaP;
      var mask12 := d != ZERO && Sub16(degSigma, degXSigmaP) >= 0x8000;
      degSigma := if mask12 then degXSigmaP else degSigma;
      assert degSigma == Longer(len0, mu, d);

      if len0 <= DELTA { RoundGenerates(sigma0, x0, len0, r, degSigmaP, rho, dp, s, mu); }
      StepShortest(sigma0, len0, s, mu);
      if degSigma <= DELTA {
        StepGenerates(sigma0, x0, len0, r, degSigmaP, rho, dp, s, mu, d, sigma[..]);
      }
      if mu == 2 * DELTA - 1 {
        break;
      }
      pp := if mask12 then mu else pp;
      dp := if mask12 then d else dp;
      ShiftUp(xsp, sigmaCopy, mask12);
      if degSigma <= DELTA {
        StepRound(sigma0, x0, len0, r, degSigmaP, rho, dp0, s, mu, d, sigma[..], xsp[..]);
      }
      degSigmaP := if mask12 then degSigmaCopy else degSigmaP;
      rho, r := if mask12 then mu else rho, if mask12 then sigma0 else r;
      d := Discrepancy(sigma, syndromes, mu + 1);
      mu := mu + 1;
    }
  }

  lemma RoundGenerates(sigma: Poly, xsp: Poly, len: nat, r: Poly, lenR: nat, rho: int, dp: Elt, s: int -> Elt, mu: nat)
    requires Round(sigma, xsp, len, r, lenR, rho, dp, s, mu)
    ensures Generates(sigma, len, s, mu)
  {}

  lemma NothingShorter(s: int -> Elt)
    ensures Shortest(0, s, 0)
  {}
}
