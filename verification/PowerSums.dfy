/** Sums of geometric progressions over GF(2^8), the shape of the syndromes of an error pattern. */
module PowerSums {
  import opened Gf256
  import opened GfArithmetic
  import opened Polynomials

  function Power(x: Elt, k: nat): Elt {
    if k == 0 then ONE else Mul(x, Power(x, k - 1))
  }

  lemma {:induction false} PowerAdd(x: Elt, b: nat, k: nat)
    ensures Mul(Power(x, b), Power(x, k)) == Power(x, k + b)
  {
    hide Mul;
    if b == 0 {
      MulOne(Power(x, k));
    } else {
      PowerAdd(x, b - 1, k);
      MulAssoc(x, Power(x, b - 1), Power(x, k));
    }
  }

  lemma {:induction false} PowerNonzero(x: Elt, k: nat)
    requires x != ZERO
    ensures Power(x, k) != ZERO
  {
    hide Mul;
    if k == 0 {
      OneIsNotZero();
    } else {
      PowerNonzero(x, k - 1);
      MulNonzero(x, Power(x, k - 1));
    }
  }

  lemma OneIsNotZero()
    ensures ONE != ZERO
  {}

  ghost predicate Distinct(xs: seq<Elt>) {
    forall i, j :: 0 <= i < j < |xs| ==> xs[i] != xs[j]
  }

  /** The sum of ws[l] * xs[l]^k. */
  function PowerSum(xs: seq<Elt>, ws: seq<Elt>, k: nat): Elt
    requires |xs| == |ws|
  {
    if xs == [] then ZERO else Add(Mul(ws[0], Power(xs[0], k)), PowerSum(xs[1..], ws[1..], k))
  }

  /** The weights ws[l] * (xs[l] + a). */
  function Damped(xs: seq<Elt>, ws: seq<Elt>, a: Elt): (r: seq<Elt>)
    requires |xs| == |ws|
    ensures |r| == |xs|
  {
    seq(|xs|, l requires 0 <= l < |xs| => Mul(ws[l], Add(xs[l], a)))
  }

  /** Adding a times the sum to the next one damps every weight by xs[l] + a. */
  lemma {:induction false} Eliminate(xs: seq<Elt>, ws: seq<Elt>, a: Elt, k: nat)
    requires |xs| == |ws|
    ensures Add(PowerSum(xs, ws, k + 1), Mul(a, PowerSum(xs, ws, k))) == PowerSum(xs, Damped(xs, ws, a), k)
  {
    hide Add, Mul;
    if xs == [] {
      MulOne(a);
      AddZero(ZERO);
    } else {
      var x, w, p := xs[0], ws[0], Power(xs[0], k);
      var s1, s0 := PowerSum(xs[1..], ws[1..], k + 1), PowerSum(xs[1..], ws[1..], k);
      Eliminate(xs[1..], ws[1..], a, k);
      assert Damped(xs, ws, a)[1..] == Damped(xs[1..], ws[1..], a);
      MulAdd(a, Mul(w, p), s0);
      AddRegroup(Mul(w, Mul(x, p)), s1, Mul(a, Mul(w, p)), Mul(a, s0));
      MulSwap(a, w, p);
      MulAdd(w, Mul(x, p), Mul(a, p));
      MulAddLeft(x, a, p);
      MulAssoc(w, Add(x, a), p);
    }
  }

  /** With a = xs[0] the first progression disappears. */
  lemma EliminateHead(xs: seq<Elt>, ws: seq<Elt>, k: nat)
    requires |xs| == |ws| > 0
    ensures Add(PowerSum(xs, ws, k + 1), Mul(xs[0], PowerSum(xs, ws, k)))
         == PowerSum(xs[1..], Damped(xs[1..], ws[1..], xs[0]), k)
  {
    hide Add, Mul;
    Eliminate(xs, ws, xs[0], k);
    var d := Damped(xs, ws, xs[0]);
    assert d[1..] == Damped(xs[1..], ws[1..], xs[0]);
    AddZero(xs[0]);
    MulOne(ws[0]);
    MulOne(Power(xs[0], k));
    AddZero(PowerSum(xs[1..], d[1..], k));
  }

  /** Vandermonde: as many vanishing sums as progressions force every weight to vanish. */
  lemma {:induction false} WeightsVanish(xs: seq<Elt>, ws: seq<Elt>)
    requires |xs| == |ws| && Distinct(xs)
    requires forall k :: 0 <= k < |xs| ==> PowerSum(xs, ws, k) == ZERO
    ensures forall l :: 0 <= l < |ws| ==> ws[l] == ZERO
  {
    hide Add, Mul;
    if xs != [] {
      var d := Damped(xs[1..], ws[1..], xs[0]);
      forall k: nat | k < |xs| - 1
        ensures PowerSum(xs[1..], d, k) == ZERO
      {
        EliminateHead(xs, ws, k);
        assert PowerSum(xs, ws, k) == ZERO && PowerSum(xs, ws, k + 1) == ZERO;
        MulOne(xs[0]);
        AddZero(ZERO);
      }
      WeightsVanish(xs[1..], d);
      forall l | 1 <= l < |ws|
        ensures ws[l] == ZERO
      {
        assert d[l - 1] == Mul(ws[l], Add(xs[l], xs[0]));
        AddCancel(xs[l], xs[0]);
        MulNonzero(ws[l], Add(xs[l], xs[0]));
      }
      PowerSumOfZeros(xs[1..], ws[1..], 0);
      assert PowerSum(xs, ws, 0) == ZERO;
      MulOne(ws[0]);
      AddZero(ws[0]);
    }
  }

  lemma {:induction false} PowerSumOfZeros(xs: seq<Elt>, ws: seq<Elt>, k: nat)
    requires |xs| == |ws| && forall l :: 0 <= l < |ws| ==> ws[l] == ZERO
    ensures PowerSum(xs, ws, k) == ZERO
  {
    hide Add, Mul;
    if xs != [] {
      PowerSumOfZeros(xs[1..], ws[1..], k);
      MulOne(Power(xs[0], k));
      AddZero(ZERO);
    }
  }

  // ---- polynomials with the leading coefficient first

  /** The value at x of q[0]*x^(m-1) + .. + q[m-1]. */
  function Horner(q: seq<Elt>, x: Elt, m: nat): Elt
    requires m <= |q|
  {
    if m == 0 then ZERO else Add(Mul(x, Horner(q, x, m - 1)), q[m - 1])
  }

  /** The quotient of q by x + a: the intermediate values of the evaluation at a. */
  function Quotient(q: seq<Elt>, a: Elt): (r: seq<Elt>)
    requires |q| > 0
    ensures |r| == |q| - 1
  {
    seq(|q| - 1, i requires 0 <= i < |q| - 1 => Horner(q, a, i + 1))
  }

  lemma {:induction false} Divide(q: seq<Elt>, a: Elt, x: Elt, m: nat)
    requires 1 <= m <= |q|
    ensures Add(Horner(q, x, m), Horner(q, a, m)) == Mul(Add(x, a), Horner(Quotient(q, a), x, m - 1))
  {
    hide Add, Mul;
    if m == 1 {
      assert Horner(q, x, 0) == ZERO == Horner(q, a, 0);
      MulOne(x);
      MulOne(a);
      MulOne(Add(x, a));
      AddZero(q[0]);
    } else {
      var c, hx, ha, r := q[m - 1], Horner(q, x, m - 1), Horner(q, a, m - 1), Horner(Quotient(q, a), x, m - 2);
      Divide(q, a, x, m - 1);
      AddRegroup(Mul(x, hx), c, Mul(a, ha), c);
      AddZero(c);
      AddZero(Add(Mul(x, hx), Mul(a, ha)));
      assert Add(Mul(x, hx), Mul(a, ha)) == Add(Mul(x, Add(hx, ha)), Mul(Add(x, a), ha)) by {
        MulAdd(x, hx, ha);
        MulAddLeft(x, a, ha);
        AddAssoc(Mul(x, hx), Mul(x, ha), Add(Mul(x, ha), Mul(a, ha)));
        AddCancel(Mul(a, ha), Mul(x, ha));
      }
      MulSwap(x, Add(x, a), r);
      MulAdd(Add(x, a), Mul(x, r), ha);
    }
  }

  /** A polynomial with leading coefficient one has at most as many roots as its degree. */
  lemma {:induction false} RootsBound(q: seq<Elt>, xs: seq<Elt>)
    requires |q| > 0 && q[0] == ONE && Distinct(xs)
    requires forall l :: 0 <= l < |xs| ==> Horner(q, xs[l], |q|) == ZERO
    ensures |xs| < |q|
    decreases |q|
  {
    hide Add, Mul;
    if xs != [] {
      var a, r := xs[0], Quotient(q, xs[0]);
      forall l | 1 <= l < |xs|
        ensures Horner(r, xs[l], |r|) == ZERO
      {
        Divide(q, a, xs[l], |q|);
        AddZero(ZERO);
        AddCancel(xs[l], a);
        MulNonzero(Add(xs[l], a), Horner(r, xs[l], |r|));
      }
      assert Horner(q, a, 1) == ONE by { MulOne(a); AddZero(ONE); assert Horner(q, a, 0) == ZERO; }
      if |q| > 1 {
        RootsBound(r, xs[1..]);
      }
    }
  }
}
