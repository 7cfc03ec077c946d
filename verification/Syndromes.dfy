/** compute_syndromes: the syndromes depend on the error alone and are power sums over its support. */
module Syndromes {
  import opened Gf256
  import opened GfArithmetic
  import opened Polynomials
  import opened PowerSums
  import opened RadixConversion
  import opened Berlekamp
  import opened ErrorLocator
  import opened ErrorPositions
  import opened FieldTables
  import opened GeneratorPolynomial
  import opened ReedSolomonEncoder

  // ---- the support of an error vector

  /** The positions of the nonzero entries of e, counted from off. */
  function Support(e: Poly, off: nat): (ps: seq<nat>)
    ensures |ps| <= |e|
    ensures forall l :: 0 <= l < |ps| ==> off <= ps[l] < off + |e| && e[ps[l] - off] != ZERO
    ensures forall l, m :: 0 <= l < m < |ps| ==> ps[l] < ps[m]
    decreases |e|
  {
    if e == [] then []
    else if e[0] == ZERO then Support(e[1..], off + 1)
    else [off] + Support(e[1..], off + 1)
  }

  lemma {:induction false} SupportComplete(e: Poly, off: nat, p: nat)
    requires p < |e| && e[p] != ZERO
    ensures off + p in Support(e, off)
    decreases |e|
  {
    if p > 0 { SupportComplete(e[1..], off + 1, p - 1); }
  }

  function Locations(ps: seq<nat>): (xs: seq<Elt>)
    ensures |xs| == |ps|
  {
    seq(|ps|, l requires 0 <= l < |ps| => Alpha(ps[l]))
  }

  /** The error values times their locations, the weights of the syndromes as power sums. */
  function Weights(e: Poly, off: nat): (ws: seq<Elt>)
    ensures |ws| == |Support(e, off)|
    decreases |e|
  {
    if e == [] then []
    else if e[0] == ZERO then Weights(e[1..], off + 1)
    else [Mul(e[0], Alpha(off))] + Weights(e[1..], off + 1)
  }

  /** Weight l is that of position l of the support. */
  ghost predicate WeightIs(e: Poly, off: nat, l: nat)
    requires l < |Support(e, off)|
  {
    var p := Support(e, off)[l];
    Weights(e, off)[l] == Mul(e[p - off], Alpha(p)) && Weights(e, off)[l] != ZERO
  }

  lemma WeightLater(e: Poly, off: nat, l: nat, k: nat)
    requires e != [] && k < |Support(e[1..], off + 1)| && l < |Support(e, off)| && WeightIs(e[1..], off + 1, k)
    requires Weights(e, off)[l] == Weights(e[1..], off + 1)[k] && Support(e, off)[l] == Support(e[1..], off + 1)[k]
    ensures WeightIs(e, off, l)
  {
    hide Mul, Alpha, Support, Weights, ZERO;
    var p := Support(e, off)[l];
    assert e[1..][p - (off + 1)] == e[p - off];
  }

  lemma {:induction false} WeightAt(e: Poly, off: nat, l: nat)
    requires l < |Support(e, off)|
    ensures WeightIs(e, off, l)
    decreases |e|
  {
    hide Mul, Alpha, WeightIs;
    if e[0] == ZERO {
      WeightAt(e[1..], off + 1, l);
      WeightLater(e, off, l, l);
    } else if l > 0 {
      WeightAt(e[1..], off + 1, l - 1);
      WeightLater(e, off, l, l - 1);
    } else {
      FirstWeight(e, off);
    }
  }

  lemma FirstWeight(e: Poly, off: nat)
    requires e != [] && e[0] != ZERO
    ensures WeightIs(e, off, 0)
  {
    hide Mul, Alpha;
    AlphaNonzero(off);
    MulNonzero(e[0], Alpha(off));
  }

  lemma {:induction false} PowerOfAlpha(a: nat, k: nat)
    ensures Power(Alpha(a), k) == Alpha(a * k)
  {
    hide Mul, Shifted;
    if k == 0 {
      ShiftedOne(0);
    } else {
      PowerOfAlpha(a, k - 1);
      assert a * k == a + a * (k - 1);
      AlphaAdd(a, a * (k - 1));
    }
  }

  /** The value of e at alpha^j is the (j-1)st power sum of its weighted locations. */
  lemma {:induction false} SyndromeSum(e: Poly, off: nat, j: nat)
    requires j >= 1
    ensures Mul(Power(Alpha(j), off), Value(e, Alpha(j)))
         == PowerSum(Locations(Support(e, off)), Weights(e, off), j - 1)
    decreases |e|
  {
    hide Mul, Add, Shifted, Power;
    var x := Alpha(j);
    var p := Power(x, off);
    if e == [] {
      MulOne(p);
    } else {
      var v := Value(e[1..], x);
      SyndromeSum(e[1..], off + 1, j);
      MulAdd(p, e[0], Mul(x, v));
      MulAssoc(p, x, v);
      MulComm(p, x);
      PowerNext(x, off);
      var xs, ws := Locations(Support(e, off)), Weights(e, off);
      if e[0] == ZERO {
        MulOne(p);
        AddZero(Mul(Power(x, off + 1), v));
      } else {
        assert xs[1..] == Locations(Support(e[1..], off + 1)) && ws[1..] == Weights(e[1..], off + 1);
        PowerOfAlpha(j, off);
        PowerOfAlpha(off, j - 1);
        assert off + off * (j - 1) == j * off;
        AlphaAdd(off, off * (j - 1));
        MulAssoc(e[0], Alpha(off), Power(Alpha(off), j - 1));
        MulComm(p, e[0]);
      }
    }
  }

  /** An error of at most 15 symbols in a word of at most 255 gives the syndromes of an error pattern. */
  lemma PatternOfError(e: Poly, s: int -> Elt)
    requires |e| <= 255 && |Support(e, 0)| <= DELTA
    requires forall i :: 0 <= i < 2 * DELTA ==> s(i) == Value(e, Alpha(i + 1))
    ensures ErrorPattern(Locations(Support(e, 0)), Weights(e, 0), s)
    ensures AtPositions(Support(e, 0), Locations(Support(e, 0)))
  {
    hide Mul, Shifted, PowerSum, Value, Power;
    var ps := Support(e, 0);
    var xs := Locations(ps);
    LocationsDistinct(ps, xs);
    forall l | 0 <= l < |ps| ensures Weights(e, 0)[l] != ZERO { WeightAt(e, 0, l); }
    forall j | 0 <= j < 2 * DELTA
      ensures s(j) == PowerSum(xs, Weights(e, 0), j)
    {
      SyndromeSum(e, 0, j + 1);
      PowerZero(Alpha(j + 1));
      MulOne(Value(e, Alpha(j + 1)));
    }
  }

  /** A nonzero word with at most 30 nonzero symbols cannot vanish at all thirty roots: the distance is 31. */
  lemma NoSparseMultiple(e: Poly)
    requires |e| <= 255 && |Support(e, 0)| <= PARITY
    requires forall j :: 1 <= j <= PARITY ==> Value(e, Alpha(j)) == ZERO
    ensures forall i :: 0 <= i < |e| ==> e[i] == ZERO
  {
    hide Mul, Shifted, PowerSum, Value, Power;
    var ps, ws := Support(e, 0), Weights(e, 0);
    var xs := Locations(ps);
    LocationsDistinct(ps, xs);
    forall k | 0 <= k < |xs|
      ensures PowerSum(xs, ws, k) == ZERO
    {
      SyndromeSum(e, 0, k + 1);
      MulOne(Power(Alpha(k + 1), 0));
    }
    WeightsVanish(xs, ws);
    forall i | 0 <= i < |e|
      ensures e[i] == ZERO
    {
      if e[i] != ZERO {
        SupportComplete(e, 0, i);
        WeightAt(e, 0, 0);
      }
    }
  }

  /** The parity symbols are the only ones that make the word vanish at the thirty roots: msg * x^30 mod g. */
  lemma ParityUnique(p: Poly, msg: Poly)
    requires |p| == PARITY && |msg| == MESSAGE
    ensures (forall j :: 1 <= j <= PARITY ==> Value(p + msg, Alpha(j)) == ZERO) <==> p == Register(msg, MESSAGE)
  {
    hide Add, Mul, Shifted, Value, Power, Register;
    var r := Register(msg, MESSAGE);
    forall j | 1 <= j <= PARITY
      ensures Value(r + msg, Alpha(j)) == ZERO
    {
      CodewordRoot(msg, j);
    }
    if forall j :: 1 <= j <= PARITY ==> Value(p + msg, Alpha(j)) == ZERO {
      var d := Plus(p, r);
      forall j | 1 <= j <= PARITY
        ensures Value(d, Alpha(j)) == ZERO
      {
        var x := Alpha(j);
        ValuePlus(p, r, x);
        ValueConcat(p, msg, x);
        ValueConcat(r, msg, x);
        var t := Mul(Power(x, PARITY), Value(msg, x));
        AddCancel(Value(p, x), t);
        AddCancel(Value(r, x), t);
        AddZero(t);
        AddCancel(Value(p, x), Value(r, x));
      }
      NoSparseMultiple(d);
      forall i | 0 <= i < PARITY ensures p[i] == r[i] {
        assert d[i] == Add(p[i], r[i]);
        AddCancel(p[i], r[i]);
      }
    }
  }

  /** Encoding is linear. */
  lemma EncodeLinear(a: Poly, b: Poly)
    requires |a| == |b| == MESSAGE
    ensures Codeword(Plus(a, b)) == Plus(Codeword(a), Codeword(b))
  {
    hide Add, Mul, Shifted, Value, Power, Register;
    var r, s := Register(a, MESSAGE), Register(b, MESSAGE);
    var p, m := Plus(r, s), Plus(a, b);
    assert Plus(Codeword(a), Codeword(b)) == p + m;
    forall j | 1 <= j <= PARITY
      ensures Value(p + m, Alpha(j)) == ZERO
    {
      CodewordRoot(a, j);
      CodewordRoot(b, j);
      ValuePlus(Codeword(a), Codeword(b), Alpha(j));
      AddZero(ZERO);
    }
    ParityUnique(p, m);
  }

  // ---- the method

  /** The sum of c[j] * alpha^((i+1)*j) over 1 <= j < 46 with the factors of the table, and c[0] last. */
  method ComputeSyndrome(c: Poly, i: nat) returns (s: Elt)
    requires |c| == LENGTH && i < 2 * DELTA
    ensures s == Value(c, Alpha(i + 1))
  {
    hide Add, Mul, Value, Shifted, AlphaIJ;
    s := ZERO;
    var j := 1;
    ValueConcatEmpty(c[1..1], Alpha(i + 1));
    while j < LENGTH
      invariant 1 <= j <= LENGTH
      invariant s == Mul(Alpha(i + 1), Value(c[1..j], Alpha(i + 1)))
    {
      SyndromeStep(c, i + 1, j);
      AlphaTable(i, j - 1);
      s := Add(s, Mul(c[j], AlphaIJ(i, j - 1)));
      j := j + 1;
    }
    assert c == [c[0]] + c[1..LENGTH];
    ValueCons(c[0], c[1..LENGTH], Alpha(i + 1));
    AddComm(s, c[0]);
    s := Add(s, c[0]);
  }

  lemma ValueConcatEmpty(p: Poly, x: Elt)
    requires p == []
    ensures Mul(x, Value(p, x)) == ZERO
  {
    hide Mul;
    MulOne(x);
  }

  lemma SyndromeStep(c: Poly, i: nat, j: nat)
    requires 1 <= j < |c|
    ensures Add(Mul(Alpha(i), Value(c[1..j], Alpha(i))), Mul(c[j], Alpha(i * j)))
         == Mul(Alpha(i), Value(c[1..j + 1], Alpha(i)))
  {
    hide Add, Mul, Value, Shifted, Power;
    var x := Alpha(i);
    assert c[1..j + 1] == c[1..j] + [c[j]];
    ValueConcat(c[1..j], [c[j]], x);
    ValueSingle(c[j], x);
    MulAdd(x, Value(c[1..j], x), Mul(Power(x, j - 1), c[j]));
    MulAssoc(x, Power(x, j - 1), c[j]);
    PowerNext(x, j - 1);
    PowerOfAlpha(i, j);
    MulComm(c[j], Alpha(i * j));
  }

  method ComputeSyndromes(c: Poly) returns (syndromes: seq<Elt>)
    requires |c| == LENGTH
    ensures |syndromes| == 2 * DELTA
    ensures forall i :: 0 <= i < 2 * DELTA ==> syndromes[i] == Value(c, Alpha(i + 1))
  {
    hide Value, Shifted;
    syndromes := [];
    var i := 0;
    while i < 2 * DELTA
      invariant 0 <= i <= 2 * DELTA && |syndromes| == i
      invariant forall k :: 0 <= k < i ==> syndromes[k] == Value(c, Alpha(k + 1))
    {
      var s := ComputeSyndrome(c, i);
      syndromes := syndromes + [s];
      i := i + 1;
    }
  }

  /** The codeword drops out of the syndromes. */
  lemma SyndromesOfError(msg: Poly, e: Poly, j: nat)
    requires |msg| == MESSAGE && |e| == LENGTH && 1 <= j <= PARITY
    ensures Value(Plus(Codeword(msg), e), Alpha(j)) == Value(e, Alpha(j))
  {
    hide Add, Value, Shifted, Codeword;
    CodewordRoot(msg, j);
    ValuePlus(Codeword(msg), e, Alpha(j));
    AddZero(Value(e, Alpha(j)));
  }
}
