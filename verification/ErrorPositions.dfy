/** The two halves together: compute_elp followed by compute_roots marks exactly the positions in error. */
module ErrorPositions {
  import opened Gf256
  import opened GfArithmetic
  import opened Polynomials
  import opened PowerSums
  import opened RadixConversion
  import opened Berlekamp
  import opened ErrorLocator
  import opened RootFinder

  /** Multiplying by 1 + a*X multiplies every value by 1 + a*x. */
  lemma TimesLinearValue(p: Poly, a: Elt, x: Elt)
    requires |p| > 0
    ensures Value(TimesLinear(p, a), x) == Mul(Add(ONE, Mul(a, x)), Value(p, x))
  {
    hide Add, Mul, Value;
    var q := TimesLinear(p, a);
    var low, shifted := p + [ZERO], [ZERO] + p;
    var scaled := seq(|shifted|, i requires 0 <= i < |shifted| => Mul(a, shifted[i]));
    forall i | 0 <= i < |q|
      ensures q[i] == Plus(low, scaled)[i]
    {
      MulOne(a);
    }
    assert q == Plus(low, scaled);
    ValuePlus(low, scaled, x);
    ValueScaled(shifted, scaled, a, x);
    ValueConcat(p, [ZERO], x);
    ValueConcat([ZERO], p, x);
    ValueSingle(ZERO, x);
    var v := Value(p, x);
    assert Power(x, 1) == x by { assert Power(x, 0) == ONE; MulOne(x); }
    MulOne(Power(x, |p|));
    AddZero(v);
    AddZero(Mul(x, v));
    MulAssoc(a, x, v);
    MulAddLeft(ONE, Mul(a, x), v);
    MulOne(v);
  }

  /** The roots of the locator are the inverses of the locations. */
  lemma {:induction false} LocatorRoot(xs: seq<Elt>, x: Elt)
    ensures Value(Locator(xs), x) == ZERO <==> exists l :: 0 <= l < |xs| && Mul(xs[l], x) == ONE
  {
    hide Add, Mul, Value, TimesLinear;
    if xs == [] {
      ValueSingle(ONE, x);
      OneIsNotZero();
    } else {
      LocatorRoot(xs[1..], x);
      TimesLinearValue(Locator(xs[1..]), xs[0], x);
      MulNonzero(Add(ONE, Mul(xs[0], x)), Value(Locator(xs[1..]), x));
      AddCancel(ONE, Mul(xs[0], x));
      if l :| 0 <= l < |xs[1..]| && Mul(xs[1..][l], x) == ONE { assert Mul(xs[l + 1], x) == ONE; }
    }
  }

  lemma PaddedValue(p: Poly, x: Elt)
    requires |p| <= DELTA + 1
    ensures Value(Padded(p), x) == Value(p, x)
  {
    hide Add, Mul, Value;
    var k := DELTA + 1 - |p|;
    ValueConcat(p, seq(k, i => ZERO), x);
    ValueZeros(k, x);
    MulOne(Power(x, |p|));
    AddZero(Value(p, x));
  }

  /** Distinct positions, each with its power of alpha. */
  ghost predicate AtPositions(ps: seq<nat>, xs: seq<Elt>) {
    && |ps| == |xs|
    && (forall l :: 0 <= l < |ps| ==> ps[l] < 255 && xs[l] == Alpha(ps[l]))
    && (forall i, j :: 0 <= i < j < |ps| ==> ps[i] != ps[j])
  }

  lemma LocationsDistinct(ps: seq<nat>, xs: seq<Elt>)
    requires AtPositions(ps, xs)
    ensures Distinct(xs) && forall l :: 0 <= l < |xs| ==> xs[l] != ZERO
  {
    hide Shifted;
    forall l | 0 <= l < |xs| ensures xs[l] != ZERO { AlphaNonzero(ps[l]); }
    forall i, j | 0 <= i < j < |xs| ensures xs[i] != xs[j] {
      if xs[i] == xs[j] { AlphaInjective(ps[i], ps[j]); }
    }
  }

  lemma InversePosition(q: nat, p: nat)
    requires q < 255 && p < 255
    ensures Mul(Alpha(q), Alpha(255 - p)) == ONE <==> q == p
  {
    hide Mul, Shifted;
    AlphaAdd(q, 255 - p);
    AlphaOrder(q + 255 - p);
  }

  /** The locator vanishes at alpha^-p exactly for the positions p in error, and not at 0. */
  lemma RootsArePositions(ps: seq<nat>, xs: seq<Elt>, p: nat)
    requires AtPositions(ps, xs) && |ps| <= DELTA && p < 255
    ensures Value(Padded(Locator(xs)), Alpha(255 - p)) == ZERO <==> p in ps
    ensures Value(Padded(Locator(xs)), ZERO) != ZERO
  {
    hide Mul, Shifted, Value, Locator, Padded;
    var x := Alpha(255 - p);
    PaddedValue(Locator(xs), x);
    PaddedValue(Locator(xs), ZERO);
    LocatorRoot(xs, x);
    LocatorRoot(xs, ZERO);
    OneIsNotZero();
    forall l | 0 <= l < |xs|
      ensures Mul(xs[l], ZERO) != ONE
      ensures Mul(xs[l], x) == ONE <==> ps[l] == p
    {
      MulOne(xs[l]);
      InversePosition(ps[l], p);
    }
  }

  /** The error pattern at the positions ps, as the syndromes see it. */
  ghost predicate Explains(ps: seq<nat>, xs: seq<Elt>, ws: seq<Elt>, s: int -> Elt) {
    AtPositions(ps, xs) && ErrorPattern(xs, ws, s)
  }

  /** For at most 15 errors the decoder marks the positions in error and nothing else. */
  method LocateErrors(error: array<bv8>, sigma: array<Elt>, syndromes: seq<Elt>, log: seq<nat>,
                      ghost ps: seq<nat>, ghost xs: seq<Elt>, ghost ws: seq<Elt>) returns (deg: nat)
    requires error.Length == 256 && sigma.Length == 16 && |syndromes| == 2 * DELTA && LogTable(log)
    requires forall p :: 0 <= p < 256 ==> error[p] == 0
    requires forall i :: 0 <= i <= DELTA ==> sigma[i] == ZERO
    modifies error, sigma
    ensures sigma[0] == ONE
    ensures Explains(ps, xs, ws, Symbols(syndromes)) ==> |xs| <= DELTA && deg == |ps| && sigma[..] == Padded(Locator(xs))
    ensures Explains(ps, xs, ws, Symbols(syndromes)) ==> forall p :: 0 <= p < 255 ==> error[p] == if p in ps then 1 else 0
  {
    hide Mul, Add, Shifted, Value, Locator, Padded, Generates, Shortest, ErrorPattern;
    deg := ComputeElp(sigma, syndromes);
    ComputeRoots(error, sigma, log);
    if Explains(ps, xs, ws, Symbols(syndromes)) {
      PatternSize(xs, ws, Symbols(syndromes));
      LocatorFound(xs, ws, Symbols(syndromes), sigma[..], deg);
      AlphaOrder(255);
      forall p | 0 <= p < 255
        ensures error[p] == if p in ps then 1 else 0
      {
        RootsArePositions(ps, xs, p);
      }
    }
  }

  lemma PatternSize(xs: seq<Elt>, ws: seq<Elt>, s: int -> Elt)
    requires ErrorPattern(xs, ws, s)
    ensures |xs| <= DELTA
  {}
}
