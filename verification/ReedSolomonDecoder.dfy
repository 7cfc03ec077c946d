/** compute_error_values, correct_errors and reed_solomon_decode: every error of at most 15 symbols is corrected. */
module ReedSolomonDecoder {
  import opened Gf256
  import opened GfArithmetic
  import opened Polynomials
  import opened PowerSums
  import opened RadixConversion
  import opened Berlekamp
  import opened ErrorLocator
  import opened RootFinder
  import opened ErrorPositions
  import opened GeneratorPolynomial
  import opened ReedSolomonEncoder
  import opened Syndromes
  import opened ForneyValues

  // ---- collecting the marked positions

  lemma {:induction false} SupportSnoc(e: Poly, a: Elt, off: nat)
    ensures Support(e + [a], off) == Support(e, off) + if a == ZERO then [] else [off + |e|]
    decreases |e|
  {
    if e == [] {
      assert (e + [a])[1..] == [];
    } else {
      assert (e + [a])[1..] == e[1..] + [a];
      SupportSnoc(e[1..], a, off + 1);
    }
  }

  lemma SupportStep(e: Poly, i: nat)
    requires i < |e|
    ensures Support(e[..i + 1], 0) == Support(e[..i], 0) + if e[i] == ZERO then [] else [i]
  {
    assert e[..i + 1] == e[..i] + [e[i]];
    SupportSnoc(e[..i], e[i], 0);
  }

  lemma {:induction false} SupportPrefix(e: Poly, i: nat)
    requires i <= |e|
    ensures |Support(e[..i], 0)| <= |Support(e, 0)|
    ensures Support(e[..i], 0) == Support(e, 0)[..|Support(e[..i], 0)|]
    decreases |e| - i
  {
    if i < |e| {
      SupportStep(e, i);
      SupportPrefix(e, i + 1);
    } else {
      assert e[..i] == e;
    }
  }

  /** The byte sum used where the source adds a masked value to a cell that holds zero. */
  function PlusByte(a: Elt, b: Elt): Elt { Elt(a.v + b.v) }

  lemma PlusByteZero(b: Elt)
    ensures PlusByte(ZERO, b) == b && PlusByte(b, ZERO) == b
  {}

  /** The inner loop over the fifteen cells: adds v to the cell at counter when marked. */
  method Deposit(cells: array<Elt>, mark: bool, counter: nat, v: Elt) returns (found: nat)
    requires cells.Length == DELTA
    modifies cells
    ensures found == if mark && counter < DELTA then 1 else 0
    ensures forall j :: 0 <= j < DELTA ==> cells[j] == if mark && j == counter then PlusByte(old(cells[j]), v) else old(cells[j])
  {
    hide PlusByte;
    found := 0;
    var j := 0;
    while j < DELTA
      invariant 0 <= j <= DELTA
      invariant found == if mark && counter < j then 1 else 0
      invariant forall k :: 0 <= k < DELTA ==> cells[k] == if mark && k == counter && k < j then PlusByte(old(cells[k]), v) else old(cells[k])
    {
      if mark && j == counter {
        cells[j] := PlusByte(cells[j], v);
        found := found + 1;
      }
      j := j + 1;
    }
  }

  /** The bytes of error that belong to the word mark the support of e. */
  ghost predicate Marks(error: seq<bv8>, e: Poly) {
    && |e| == LENGTH && |error| == 256 && |Support(e, 0)| <= DELTA
    && forall p :: 0 <= p < LENGTH ==> (error[p] != 0 <==> e[p] != ZERO)
  }

  lemma SupportBounded(e: Poly, i: nat)
    requires |e| == LENGTH && i < LENGTH && |Support(e, 0)| <= DELTA && e[i] != ZERO
    ensures |Support(e[..i], 0)| < DELTA
    ensures |Support(e[..i], 0)| < |Support(e, 0)| && Support(e, 0)[|Support(e[..i], 0)|] == i
  {
    hide Support;
    SupportStep(e, i);
    SupportPrefix(e, i + 1);
    SupportPrefix(e, i);
    var n := |Support(e[..i], 0)|;
    assert Support(e[..i + 1], 0)[n] == i;
    assert Support(e, 0)[..n + 1][n] == Support(e, 0)[n];
  }

  ghost predicate Collected(cells: seq<Elt>, ps: seq<nat>) {
    && |cells| == DELTA && |ps| <= DELTA
    && (forall l :: 0 <= l < |ps| ==> cells[l] == Alpha(ps[l]))
    && (forall l :: |ps| <= l < DELTA ==> cells[l] == ZERO)
  }

  /** The locations of the marked positions in ascending order. */
  method CollectLocations(error: seq<bv8>, exp: seq<Elt>, ghost e: Poly) returns (cells: seq<Elt>, count: nat)
    requires |error| == 256 && |exp| == 258 && forall i :: 0 <= i < 258 ==> exp[i] == Alpha(i)
    ensures |cells| == DELTA
    ensures Marks(error, e) ==> Collected(cells, Support(e, 0)) && count == |Support(e, 0)|
  {
    hide Shifted, PlusByte, Support;
    var beta := new Elt[DELTA](i => ZERO);
    count := 0;
    if Marks(error, e) { EmptySupport(e[..0]); }
    var i := 0;
    while i < LENGTH
      invariant 0 <= i <= LENGTH
      invariant Marks(error, e) ==> count == |Support(e[..i], 0)| && Collected(beta[..], Support(e[..i], 0))
    {
      if Marks(error, e) {
        SupportStep(e, i);
        if e[i] != ZERO { SupportBounded(e, i); }
      }
      var found := Deposit(beta, error[i] != 0, count, exp[i]);
      PlusByteZero(exp[i]);
      count := count + found;
      i := i + 1;
    }
    if Marks(error, e) { assert e[..LENGTH] == e; }
    cells := beta[..];
  }

  lemma EmptySupport(e: Poly)
    requires e == []
    ensures Support(e, 0) == []
  {}

  // ---- one error value

  /** The other cells in the cyclic order in which the source multiplies them. */
  function Rotated(beta: seq<Elt>, i: nat): (r: seq<Elt>)
    requires |beta| == DELTA && i < DELTA
    ensures |r| == DELTA - 1
  {
    beta[i + 1..] + beta[..i]
  }

  lemma RotatedAt(beta: seq<Elt>, i: nat, k: nat)
    requires |beta| == DELTA && i < DELTA && 1 <= k < DELTA
    ensures Rotated(beta, i)[k - 1] == beta[(i + k) % DELTA]
  {}

  method ErrorValue(beta: seq<Elt>, z: Poly, i: nat) returns (value: Elt)
    requires |beta| == DELTA && |z| == DELTA + 1 && z[0] == ONE && i < DELTA
    ensures value == Mul(Value(z, Inverse(beta[i])), Inverse(Factors(Rotated(beta, i), Inverse(beta[i]))))
  {
    hide Add, Mul, Value, Factors, Inverse, Power, Rotated;
    var inverse := Inverse(beta[i]);
    var tmp1 := EvaluateZ(z, inverse);
    var tmp2 := ONE;
    ghost var r := Rotated(beta, i);
    EmptyFactors(r[..0], inverse);
    var k := 1;
    while k < DELTA
      invariant 1 <= k <= DELTA
      invariant tmp2 == Factors(r[..k - 1], inverse)
    {
      RotatedAt(beta, i, k);
      FactorsSnoc(r, k - 1, inverse);
      MulComm(inverse, beta[(i + k) % DELTA]);
      tmp2 := Mul(tmp2, Add(ONE, Mul(inverse, beta[(i + k) % DELTA])));
      k := k + 1;
    }
    assert r[..DELTA - 1] == r;
    value := Mul(tmp1, Inverse(tmp2));
  }

  method EvaluateZ(z: Poly, inverse: Elt) returns (tmp1: Elt)
    requires |z| == DELTA + 1 && z[0] == ONE
    ensures tmp1 == Value(z, inverse)
  {
    hide Add, Mul, Value, Power;
    tmp1 := ONE;
    var inversePower := ONE;
    PowerZeroOne(inverse);
    assert z[..1] == [ONE];
    ValueSingle(ONE, inverse);
    var j := 1;
    while j <= DELTA
      invariant 1 <= j <= DELTA + 1
      invariant inversePower == Power(inverse, j - 1)
      invariant tmp1 == Value(z[..j], inverse)
    {
      PowerNext(inverse, j - 1);
      MulComm(inversePower, inverse);
      assert z[..j + 1] == z[..j] + [z[j]];
      ValueConcat(z[..j], [z[j]], inverse);
      ValueSingle(z[j], inverse);
      inversePower := Mul(inversePower, inverse);
      tmp1 := Add(tmp1, Mul(inversePower, z[j]));
      j := j + 1;
    }
    assert z[..DELTA + 1] == z;
  }

  lemma EmptyFactors(r: seq<Elt>, x: Elt)
    requires r == []
    ensures Factors(r, x) == ONE
  {}

  lemma FactorsSnoc(r: seq<Elt>, k: nat, x: Elt)
    requires k < |r|
    ensures Factors(r[..k + 1], x) == Mul(Factors(r[..k], x), Add(ONE, Mul(r[k], x)))
  {
    hide Add, Mul;
    assert r[..k + 1] == r[..k] + [r[k]];
    FactorsConcat(r[..k], [r[k]], x);
    assert [r[k]][1..] == [];
    MulOne(Add(ONE, Mul(r[k], x)));
  }

  /** The cyclic product is the product over the other locations. */
  lemma RotatedFactors(beta: seq<Elt>, ps: seq<nat>, i: nat, x: Elt)
    requires Collected(beta, ps) && i < |ps|
    ensures Factors(Rotated(beta, i), x) == Factors(Without(Syndromes.Locations(ps), i), x)
  {
    hide Mul, Factors, Shifted;
    var xs := Syndromes.Locations(ps);
    var zeros := beta[|ps|..];
    assert beta[i + 1..] == xs[i + 1..] + zeros && beta[..i] == xs[..i];
    FactorsConcat(beta[i + 1..], beta[..i], x);
    FactorsConcat(xs[i + 1..], zeros, x);
    FactorsConcat(xs[..i], xs[i + 1..], x);
    FactorsOfZeros(zeros, x);
    MulOne(Factors(xs[i + 1..], x));
    MulComm(Factors(xs[i + 1..], x), Factors(xs[..i], x));
  }

  /** The computed value is the error itself. */
  lemma ValueIsError(z: Poly, e: Poly, s: int -> Elt, beta: seq<Elt>, i: nat)
    requires |e| == LENGTH && |Support(e, 0)| <= DELTA && i < |Support(e, 0)|
    requires ErrorPattern(Syndromes.Locations(Support(e, 0)), Weights(e, 0), s)
    requires ZPoly(z, Padded(Locator(Syndromes.Locations(Support(e, 0)))), |Support(e, 0)|, s)
    requires Collected(beta, Support(e, 0))
    ensures Mul(Value(z, Inverse(beta[i])), Inverse(Factors(Rotated(beta, i), Inverse(beta[i])))) == e[Support(e, 0)[i]]
  {
    hide Mul, Inverse, Value, Factors, Shifted, ErrorPattern, ZPoly, Locator, Padded, Rotated, Without, Weights;
    var ps := Support(e, 0);
    var xs, ws := Syndromes.Locations(ps), Weights(e, 0);
    var err, x := e[ps[i]], Inverse(beta[i]);
    AlphaNonzero(ps[i]);
    InverseCorrect(beta[i]);
    WeightAt(e, 0, i);
    Forney(z, xs, ws, s, i, x, err);
    RotatedFactors(beta, ps, i, x);
    var f := Factors(Without(xs, i), x);
    InverseCorrect(f);
    MulAssoc(err, f, Inverse(f));
    MulOne(err);
  }

  // ---- the decoder

  /** z, the marks and the syndromes belong to the error e. */
  ghost predicate ErrorData(z: Poly, error: seq<bv8>, e: Poly, s: int -> Elt) {
    && Marks(error, e)
    && ErrorPattern(Syndromes.Locations(Support(e, 0)), Weights(e, 0), s)
    && ZPoly(z, Padded(Locator(Syndromes.Locations(Support(e, 0)))), |Support(e, 0)|, s)
  }

  method ErrorValues(z: Poly, error: seq<bv8>, exp: seq<Elt>, ghost e: Poly, ghost s: int -> Elt) returns (values: seq<Elt>)
    requires |z| == DELTA + 1 && z[0] == ONE && |error| == 256
    requires |exp| == 258 && forall i :: 0 <= i < 258 ==> exp[i] == Alpha(i)
    ensures |values| == LENGTH
    ensures ErrorData(z, error, e, s) ==> values == e
  {
    hide Mul, Inverse, Value, Factors, Shifted, ErrorPattern, ZPoly, Locator, Padded, Rotated, Collected, Support, Weights;
    var beta, count := CollectLocations(error, exp, e);
    var es: seq<Elt> := [];
    var i := 0;
    while i < DELTA
      invariant 0 <= i <= DELTA && |es| == i
      invariant ErrorData(z, error, e, s) ==> forall l :: 0 <= l < i && l < count ==> es[l] == e[Support(e, 0)[l]]
    {
      var v := ErrorValue(beta, z, i);
      if ErrorData(z, error, e, s) && i < count { ValueIsError(z, e, s, beta, i); }
      es := es + [if i < count then v else ZERO];
      i := i + 1;
    }
    values := PlaceValues(error, es, e);
  }

  lemma ZPolyHead(z: Poly, sigma: Poly, deg: nat, s: int -> Elt)
    requires ZPoly(z, sigma, deg, s)
    ensures |z| == DELTA + 1 && z[0] == ONE
  {}

  /** The last loop of compute_error_values: the values go back to the marked positions. */
  method PlaceValues(error: seq<bv8>, es: seq<Elt>, ghost e: Poly) returns (values: seq<Elt>)
    requires |error| == 256 && |es| == DELTA
    ensures |values| == LENGTH
    ensures Marks(error, e) && (forall l :: 0 <= l < |Support(e, 0)| ==> es[l] == e[Support(e, 0)[l]]) ==> values == e
  {
    hide Support, PlusByte;
    ghost var known := Marks(error, e) && forall l :: 0 <= l < |Support(e, 0)| ==> es[l] == e[Support(e, 0)[l]];
    values := [];
    var counter := 0;
    if known { EmptySupport(e[..0]); }
    var i := 0;
    while i < LENGTH
      invariant 0 <= i <= LENGTH && |values| == i
      invariant known ==> values == e[..i] && counter == |Support(e[..i], 0)|
    {
      if known {
        SupportStep(e, i);
        if e[i] != ZERO { SupportBounded(e, i); }
      }
      var v, found := Fetch(es, error[i] != 0, counter);
      values := values + [v];
      counter := counter + found;
      i := i + 1;
    }
  }

  /** The inner loop over the fifteen values: the one at counter when marked. */
  method Fetch(es: seq<Elt>, mark: bool, counter: nat) returns (v: Elt, found: nat)
    requires |es| == DELTA
    ensures mark && counter < DELTA ==> v == es[counter] && found == 1
    ensures !mark || counter >= DELTA ==> v == ZERO && found == 0
  {
    hide PlusByte;
    v, found := ZERO, 0;
    var j := 0;
    while j < DELTA
      invariant 0 <= j <= DELTA
      invariant mark && counter < j ==> v == es[counter] && found == 1
      invariant !mark || counter >= j ==> v == ZERO && found == 0
    {
      if mark && j == counter {
        PlusByteZero(es[j]);
        v := PlusByte(v, es[j]);
        found := found + 1;
      }
      j := j + 1;
    }
  }

  method CorrectErrors(cdw: array<Elt>, values: seq<Elt>)
    requires cdw.Length == LENGTH == |values|
    modifies cdw
    ensures cdw[..] == Plus(old(cdw[..]), values)
  {
    hide Add;
    var i := 0;
    while i < LENGTH
      invariant 0 <= i <= LENGTH
      invariant forall j :: 0 <= j < LENGTH ==> cdw[j] == if j < i then Add(old(cdw[j]), values[j]) else old(cdw[j])
    {
      cdw[i] := Add(cdw[i], values[i]);
      i := i + 1;
    }
  }

  /** The received word is the codeword of msg with at most 15 symbols changed by e. */
  ghost predicate Received(cdw: Poly, msg: Poly, e: Poly) {
    |msg| == MESSAGE && |e| == LENGTH && |Support(e, 0)| <= DELTA && cdw == Plus(Codeword(msg), e)
  }

  /** Two codewords within 15 symbols of the same word are equal: unique decoding. */
  lemma UniqueDecoding(word: Poly, m0: Poly, e0: Poly, m1: Poly, e1: Poly)
    requires Received(word, m0, e0) && Received(word, m1, e1)
    ensures m0 == m1 && e0 == e1
  {
    hide Mul, Add, Value, Shifted, Support, Weights, Codeword, ErrorPattern;
    var syn := seq(2 * DELTA, i requires 0 <= i < 2 * DELTA => Value(word, Alpha(i + 1)));
    var s := Symbols(syn);
    forall i | 0 <= i < 2 * DELTA
      ensures s(i) == Value(e0, Alpha(i + 1)) && s(i) == Value(e1, Alpha(i + 1))
    {
      SyndromesOfError(m0, e0, i + 1);
      SyndromesOfError(m1, e1, i + 1);
    }
    SameErrors(e0, e1, s);
    PlusTwice(Codeword(m0), e0);
    PlusTwice(Codeword(m1), e1);
    CodewordTail(m0);
    CodewordTail(m1);
  }

  /** The decoder is a function of the syndromes, so two errors with the same syndromes are equal. */
  lemma SameErrors(e0: Poly, e1: Poly, s: int -> Elt)
    requires |e0| == |e1| == LENGTH && |Support(e0, 0)| <= DELTA && |Support(e1, 0)| <= DELTA
    requires forall i :: 0 <= i < 2 * DELTA ==> s(i) == Value(e0, Alpha(i + 1)) && s(i) == Value(e1, Alpha(i + 1))
    ensures e0 == e1
  {
    hide Add, Mul, Value, Shifted, Support;
    var d := Plus(e0, e1);
    forall j | 1 <= j <= PARITY
      ensures Value(d, Alpha(j)) == ZERO
    {
      assert s(j - 1) == Value(e0, Alpha(j - 1 + 1)) == Value(e1, Alpha(j - 1 + 1));
      ValuePlus(e0, e1, Alpha(j));
      AddZero(Value(e0, Alpha(j)));
    }
    SupportOfSum(e0, e1, 0);
    NoSparseMultiple(d);
    forall i | 0 <= i < LENGTH ensures e0[i] == e1[i] {
      assert d[i] == Add(e0[i], e1[i]);
      AddCancel(e0[i], e1[i]);
    }
    assert e0 == e1;
  }

  lemma {:induction false} SupportOfSum(a: Poly, b: Poly, off: nat)
    requires |a| == |b|
    ensures |Support(Plus(a, b), off)| <= |Support(a, off)| + |Support(b, off)|
    decreases |a|
  {
    hide Add;
    if a != [] {
      assert Plus(a, b)[1..] == Plus(a[1..], b[1..]);
      SupportOfSum(a[1..], b[1..], off + 1);
      AddZero(ZERO);
    }
  }

  /** reed_solomon_decode returns the message of every word within 15 symbols of a codeword. */
  method ReedSolomonDecode(word: Poly, exp: seq<Elt>, log: seq<nat>) returns (m: Poly)
    requires |word| == LENGTH && LogTable(log)
    requires |exp| == 258 && forall i :: 0 <= i < 258 ==> exp[i] == Alpha(i)
    ensures |m| == MESSAGE
    ensures forall msg, e :: Received(word, msg, e) ==> m == msg
  {
    hide Mul, Value, Shifted, Support, Weights, ErrorPattern, ZPoly, Locator, Padded, Codeword, Received, Explains, ErrorData;
    ghost var msg, e := [], [];
    if k, f :| Received(word, k, f) { msg, e := k, f; }
    var cdw := new Elt[LENGTH](i requires 0 <= i < LENGTH => word[i]);
    assert cdw[..] == word;
    var syndromes := ComputeSyndromes(word);
    ghost var ps, s := Support(e, 0), Symbols(syndromes);
    ghost var xs, ws := Syndromes.Locations(ps), Weights(e, 0);
    if Received(word, msg, e) { ReceivedPattern(word, msg, e, s); }
    var sigma, error := new Elt[16](i => ZERO), new bv8[256](i => 0);
    var deg := LocateErrors(error, sigma, syndromes, log, ps, xs, ws);
    var z := ComputeZPoly(sigma[..], deg, syndromes);
    ZPolyHead(z, sigma[..], deg, s);
    if Received(word, msg, e) { ReceivedData(word, msg, e, z, error[..], s); }
    var values := ErrorValues(z, error[..], exp, e, s);
    CorrectErrors(cdw, values);
    m := cdw[PARITY..];
    forall k, f | Received(word, k, f)
      ensures m == k
    {
      UniqueDecoding(word, msg, e, k, f);
      ReceivedTail(word, k, f);
    }
  }

  lemma ReceivedTail(word: Poly, msg: Poly, e: Poly)
    requires Received(word, msg, e)
    ensures |word| == |e| && Plus(word, e)[PARITY..] == msg
  {
    hide Codeword, Support;
    PlusTwice(Codeword(msg), e);
    CodewordTail(msg);
  }

  lemma ReceivedPattern(word: Poly, msg: Poly, e: Poly, s: int -> Elt)
    requires |word| == LENGTH && Received(word, msg, e)
    requires forall i {:trigger s(i)} :: 0 <= i < 2 * DELTA ==> s(i) == Value(word, Alpha(i + 1))
    ensures Explains(Support(e, 0), Syndromes.Locations(Support(e, 0)), Weights(e, 0), s)
  {
    hide Mul, Value, Shifted, Support, Weights, Codeword, ErrorPattern;
    forall i | 0 <= i < 2 * DELTA
      ensures s(i) == Value(e, Alpha(i + 1))
    {
      SyndromesOfError(msg, e, i + 1);
    }
    PatternOfError(e, s);
  }

  lemma ReceivedData(word: Poly, msg: Poly, e: Poly, z: Poly, error: seq<bv8>, s: int -> Elt)
    requires Received(word, msg, e) && |error| == 256
    requires Explains(Support(e, 0), Syndromes.Locations(Support(e, 0)), Weights(e, 0), s)
    requires forall p :: 0 <= p < 255 ==> error[p] == if p in Support(e, 0) then 1 else 0
    requires |Support(e, 0)| <= DELTA
    requires ZPoly(z, Padded(Locator(Syndromes.Locations(Support(e, 0)))), |Support(e, 0)|, s)
    ensures ErrorData(z, error, e, s)
  {
    hide Support, Weights, ErrorPattern, ZPoly, Locator, Padded, Codeword, Shifted, Marks;
    MarkedSupport(error, e);
  }

  lemma CodewordTail(msg: Poly)
    requires |msg| == MESSAGE
    ensures Codeword(msg)[PARITY..] == msg
  {
    hide Register;
  }

  lemma PlusTwice(a: Poly, e: Poly)
    requires |a| == |e|
    ensures Plus(Plus(a, e), e) == a
  {
    hide Add;
    forall i | 0 <= i < |a| ensures Plus(Plus(a, e), e)[i] == a[i] { AddCancel(a[i], e[i]); }
  }

  lemma MarkedSupport(error: seq<bv8>, e: Poly)
    requires |error| == 256 && |e| == LENGTH && |Support(e, 0)| <= DELTA
    requires forall p :: 0 <= p < 255 ==> error[p] == if p in Support(e, 0) then 1 else 0
    ensures Marks(error, e)
  {
    forall p | 0 <= p < LENGTH
      ensures error[p] != 0 <==> e[p] != ZERO
    {
      if e[p] != ZERO { SupportComplete(e, 0, p); }
      if p in Support(e, 0) { var l :| 0 <= l < |Support(e, 0)| && Support(e, 0)[l] == p; }
    }
  }
}
