/** The radix conversion of fft.c: f(x) = f0(x^2 + x) + x * f1(x^2 + x). */
module RadixConversion {
  import opened Gf256
  import opened GfArithmetic
  import opened Polynomials
  import opened PowerSums

  function Pow2(n: nat): (p: nat)
    ensures p > 0
  {
    if n == 0 then 1 else 2 * Pow2(n - 1)
  }

  /** The value at x of p[0] + p[1]*x + p[2]*x^2 + .. */
  function Value(p: Poly, x: Elt): Elt {
    if p == [] then ZERO else Add(p[0], Mul(x, Value(p[1..], x)))
  }

  function Plus(a: Poly, b: Poly): (r: Poly)
    requires |a| == |b|
    ensures |r| == |a|
  {
    seq(|a|, i requires 0 <= i < |a| => Add(a[i], b[i]))
  }

  lemma {:induction false} ValueConcat(a: Poly, b: Poly, x: Elt)
    ensures Value(a + b, x) == Add(Value(a, x), Mul(Power(x, |a|), Value(b, x)))
  {
    hide Add, Mul;
    if a == [] {
      assert a + b == b;
      MulOne(Value(b, x));
      AddZero(Value(b, x));
    } else {
      ValueConcat(a[1..], b, x);
      assert (a + b)[1..] == a[1..] + b;
      var u, v := Value(a[1..], x), Value(b, x);
      MulAdd(x, u, Mul(Power(x, |a| - 1), v));
      MulAssoc(x, Power(x, |a| - 1), v);
      AddAssoc(a[0], Mul(x, u), Mul(Power(x, |a|), v));
    }
  }

  lemma {:induction false} ValuePlus(a: Poly, b: Poly, x: Elt)
    requires |a| == |b|
    ensures Value(Plus(a, b), x) == Add(Value(a, x), Value(b, x))
  {
    hide Add, Mul;
    if a == [] {
      AddZero(ZERO);
    } else {
      ValuePlus(a[1..], b[1..], x);
      assert Plus(a, b)[1..] == Plus(a[1..], b[1..]);
      var u, v := Value(a[1..], x), Value(b[1..], x);
      MulAdd(x, u, v);
      AddRegroup(a[0], b[0], Mul(x, u), Mul(x, v));
    }
  }

  lemma {:induction false} ValueScaled(p: Poly, q: Poly, a: Elt, x: Elt)
    requires |q| == |p| && forall i :: 0 <= i < |p| ==> q[i] == Mul(a, p[i])
    ensures Value(q, x) == Mul(a, Value(p, x))
  {
    hide Add, Mul;
    if p == [] {
      MulOne(a);
    } else {
      ValueScaled(p[1..], q[1..], a, x);
      var v := Value(p[1..], x);
      MulAdd(a, p[0], Mul(x, v));
      MulSwap(x, a, v);
    }
  }

  lemma {:induction false} ValueZeros(k: nat, x: Elt)
    ensures Value(seq(k, i => ZERO), x) == ZERO
  {
    hide Add, Mul;
    if k > 0 {
      ValueZeros(k - 1, x);
      assert seq(k, i => ZERO)[1..] == seq(k - 1, i => ZERO);
      MulOne(x);
      AddZero(ZERO);
    }
  }

  // ---- the conversion f(x) = f0(x^2 + x) + x * f1(x^2 + x)

  /** The upper half of f as the quotient by y^n, y = x^2 + x, n a quarter of the length. */
  function High(f: Poly, n: nat): (q: Poly)
    requires |f| == 4 * n
    ensures |q| == 2 * n
  {
    Plus(f[2 * n..3 * n], f[3 * n..]) + f[3 * n..]
  }

  /** The remainder. */
  function Low(f: Poly, n: nat): (r: Poly)
    requires |f| == 4 * n
    ensures |r| == 2 * n
  {
    f[..n] + Plus(f[n..2 * n], High(f, n)[..n])
  }

  /** radix_big, split down to linear polynomials. */
  function Radix(f: Poly, m: nat): (r: (Poly, Poly))
    requires m >= 1 && |f| == Pow2(m)
    ensures |r.0| == |r.1| == Pow2(m - 1)
    decreases m
  {
    if m == 1 then
      ([f[0]], [f[1]])
    else
      var n := Pow2(m - 2);
      assert Pow2(m) == 2 * Pow2(m - 1) == 4 * n;
      var q, r := Radix(High(f, n), m - 1), Radix(Low(f, n), m - 1);
      (r.0 + q.0, r.1 + q.1)
  }

  function Artin(x: Elt): Elt { Add(Mul(x, x), x) }

  lemma {:induction false} ArtinPower(x: Elt, k: nat)
    ensures Power(Artin(x), Pow2(k)) == Add(Power(x, 2 * Pow2(k)), Power(x, Pow2(k)))
  {
    hide Add, Mul;
    if k == 0 {
      MulOne(x);
      MulOne(Artin(x));
      assert Power(x, 0) == ONE == Power(Artin(x), 0);
      assert Power(x, 1) == x && Power(x, 2) == Mul(x, x) && Power(Artin(x), 1) == Artin(x);
    } else {
      var n := Pow2(k - 1);
      ArtinPower(x, k - 1);
      PowerAdd(Artin(x), n, n);
      PowerAdd(x, n, n);
      PowerAdd(x, 2 * n, 2 * n);
      SquareAdd(Power(x, 2 * n), Power(x, n));
    }
  }

  /** f = Low + (x^2n + x^n) * High. */
  lemma SplitValue(f: Poly, n: nat, x: Elt)
    requires |f| == 4 * n
    ensures Value(f, x) == Add(Value(Low(f, n), x), Mul(Add(Power(x, 2 * n), Power(x, n)), Value(High(f, n), x)))
  {
    hide Add, Mul, Value, Plus, Power;
    var a0, a1, a2, a3 := f[..n], f[n..2 * n], f[2 * n..3 * n], f[3 * n..];
    var p := Power(x, n);
    var b := Plus(a2, a3);
    assert High(f, n)[..n] == b;
    ValueConcat(b, a3, x);
    ValuePlus(a2, a3, x);
    ValueConcat(a0, Plus(a1, b), x);
    ValuePlus(a1, b, x);
    assert f == a0 + (a1 + (a2 + a3));
    ValueConcat(a0, a1 + (a2 + a3), x);
    ValueConcat(a1, a2 + a3, x);
    ValueConcat(a2, a3, x);
    PowerAdd(x, n, n);
    SplitAlgebra(Value(a0, x), Value(a1, x), Value(a2, x), Value(a3, x), p);
  }

  lemma SplitAlgebra(a: Elt, b: Elt, c: Elt, d: Elt, p: Elt)
    ensures Add(a, Mul(p, Add(b, Mul(p, Add(c, Mul(p, d))))))
         == Add(Add(a, Mul(p, Add(b, Add(c, d)))), Mul(Add(Mul(p, p), p), Add(Add(c, d), Mul(p, d))))
  {
    hide Add, Mul;
    var q := Mul(p, p);
    var e := Add(c, Mul(p, d));
    MulAdd(p, b, Mul(p, e));
    MulAssoc(p, p, e);
    // left: a + (pb + q e)
    var g := Add(Add(c, d), Mul(p, d));
    AddAssoc(c, d, Mul(p, d));
    AddComm(d, Mul(p, d));
    AddAssoc(c, Mul(p, d), d);
    assert g == Add(e, d);
    MulAddLeft(q, p, g);
    MulAdd(q, e, d);
    MulAdd(p, Add(c, d), Mul(p, d));
    MulAssoc(p, p, d);
    MulAdd(p, b, Add(c, d));
    SplitSum(a, Mul(p, b), Mul(q, e), Mul(p, Add(c, d)), Mul(q, d));
  }

  lemma SplitSum(a: Elt, b: Elt, e: Elt, s: Elt, d: Elt)
    ensures Add(a, Add(b, e)) == Add(Add(a, Add(b, s)), Add(Add(e, d), Add(s, d)))
  {}

  /** The conversion is an identity of polynomials: f(x) = f0(x^2 + x) + x * f1(x^2 + x). */
  lemma {:induction false} RadixCorrect(f: Poly, m: nat, x: Elt)
    requires m >= 1 && |f| == Pow2(m)
    ensures Value(f, x) == Add(Value(Radix(f, m).0, Artin(x)), Mul(x, Value(Radix(f, m).1, Artin(x))))
    decreases m
  {
    hide Add, Mul, Power, Artin, High, Low, Value;
    if m == 1 {
      LinearValue(f, x);
      ValueSingle(f[0], Artin(x));
      ValueSingle(f[1], Artin(x));
    } else {
      var n := Pow2(m - 2);
      RadixUnfold(f, m);
      RadixCorrect(High(f, n), m - 1, x);
      RadixCorrect(Low(f, n), m - 1, x);
      RadixStep(f, n, m, Radix(High(f, n), m - 1), Radix(Low(f, n), m - 1), x);
    }
  }

  lemma RadixUnfold(f: Poly, m: nat)
    requires m >= 2 && |f| == Pow2(m)
    ensures Pow2(m - 1) == 2 * Pow2(m - 2) && |f| == 4 * Pow2(m - 2)
    ensures Radix(f, m).0 == Radix(Low(f, Pow2(m - 2)), m - 1).0 + Radix(High(f, Pow2(m - 2)), m - 1).0
    ensures Radix(f, m).1 == Radix(Low(f, Pow2(m - 2)), m - 1).1 + Radix(High(f, Pow2(m - 2)), m - 1).1
  {
    hide High, Low;
    assert Pow2(m) == 2 * Pow2(m - 1);
  }

  lemma RadixStep(f: Poly, n: nat, m: nat, q: (Poly, Poly), r: (Poly, Poly), x: Elt)
    requires m >= 2 && n == Pow2(m - 2) && |f| == 4 * n
    requires |r.0| == |r.1| == n
    requires Value(High(f, n), x) == Add(Value(q.0, Artin(x)), Mul(x, Value(q.1, Artin(x))))
    requires Value(Low(f, n), x) == Add(Value(r.0, Artin(x)), Mul(x, Value(r.1, Artin(x))))
    ensures Value(f, x) == Add(Value(r.0 + q.0, Artin(x)), Mul(x, Value(r.1 + q.1, Artin(x))))
  {
    hide Add, Mul, Power, Artin, Value, High, Low, Pow2;
    var y := Artin(x);
    SplitValue(f, n, x);
    ArtinPower(x, m - 2);
    ValueConcat(r.0, q.0, y);
    ValueConcat(r.1, q.1, y);
    RadixAlgebra(Value(r.0, y), Value(r.1, y), Value(q.0, y), Value(q.1, y), x, Power(y, n));
  }

  lemma LinearValue(f: Poly, x: Elt)
    requires |f| == 2
    ensures Value(f, x) == Add(f[0], Mul(x, f[1]))
  {
    hide Add, Mul;
    assert f[1..] == [f[1]];
    ValueSingle(f[1], x);
  }

  lemma ValueSingle(a: Elt, x: Elt)
    ensures Value([a], x) == a
  {
    hide Add, Mul;
    assert Value([a][1..], x) == ZERO;
    MulOne(x);
    AddZero(a);
  }

  lemma RadixAlgebra(r0: Elt, r1: Elt, q0: Elt, q1: Elt, x: Elt, p: Elt)
    ensures Add(Add(r0, Mul(x, r1)), Mul(p, Add(q0, Mul(x, q1))))
         == Add(Add(r0, Mul(p, q0)), Mul(x, Add(r1, Mul(p, q1))))
  {
    hide Add, Mul;
    MulAdd(p, q0, Mul(x, q1));
    MulSwap(p, x, q1);
    MulAdd(x, r1, Mul(p, q1));
    AddRegroup(r0, Mul(x, r1), Mul(p, q0), Mul(x, Mul(p, q1)));
  }

  // ---- the unrolled conversions for 2, 4, 8 and 16 coefficients

  ghost predicate Table2(f: Poly, g0: Poly, g1: Poly)
    requires |f| == 4 && |g0| == |g1| == 2
  {
    && g0[0] == f[0]
    && g0[1] == Add(f[2], f[3])
    && g1[0] == Add(f[1], g0[1])
    && g1[1] == f[3]
  }

  lemma Radix2(f: Poly)
    requires |f| == 4
    ensures Pow2(2) == 4 && Pow2(1) == 2 && Pow2(0) == 1 && Table2(f, Radix(f, 2).0, Radix(f, 2).1)
  {
    hide Add;
    RadixUnfold(f, 2);
    assert Pow2(0) == 1;
    var q, r := High(f, 1), Low(f, 1);
    assert q == [Add(f[2], f[3]), f[3]];
    assert r == [f[0], Add(f[1], q[0])];
  }

  ghost predicate Table3(f: Poly, g0: Poly, g1: Poly)
    requires |f| == 8 && |g0| == |g1| == 4
  {
    && g0[0] == f[0]
    && g0[2] == Add(f[4], f[6])
    && g0[3] == Add(f[6], f[7])
    && g1[1] == Add(Add(f[3], f[5]), f[7])
    && g1[2] == Add(f[5], f[6])
    && g1[3] == f[7]
    && g0[1] == Add(Add(f[2], g0[2]), g1[1])
    && g1[0] == Add(f[1], g0[1])
  }

  lemma Radix3(f: Poly)
    requires |f| == 8
    ensures Pow2(3) == 8 && Pow2(2) == 4 && Table3(f, Radix(f, 3).0, Radix(f, 3).1)
  {
    hide Add;
    assert Pow2(1) == 2 && Pow2(2) == 4;
    RadixUnfold(f, 3);
    var q, r := High(f, 2), Low(f, 2);
    Radix2(q);
    Radix2(r);
    assert q[2..] == f[6..];
    assert q[0] == Add(f[4], f[6]) && q[1] == Add(f[5], f[7]) && q[2] == f[6] && q[3] == f[7];
    assert r[0] == f[0] && r[1] == f[1] && r[2] == Add(f[2], q[0]) && r[3] == Add(f[3], q[1]);
    var g0, g1 := Radix(f, 3).0, Radix(f, 3).1;
    AddAssoc(f[3], f[5], f[7]);
    AddAssoc(f[2], q[0], r[3]);
    assert g1[2] == Add(q[1], Add(q[2], q[3]));
    SumCancel(f[5], f[7], f[6]);
  }

  lemma SumCancel(a: Elt, b: Elt, c: Elt)
    ensures Add(Add(a, b), Add(c, b)) == Add(a, c)
  {}

  ghost predicate Table4(f: Poly, g0: Poly, g1: Poly)
    requires |f| == 16 && |g0| == |g1| == 8
  {
    && g0[4] == Add(f[8], f[12])
    && g0[6] == Add(f[12], f[14])
    && g0[7] == Add(f[14], f[15])
    && g1[5] == Add(f[11], f[13])
    && g1[6] == Add(f[13], f[14])
    && g1[7] == f[15]
    && g0[5] == Add(Add(f[10], f[12]), g1[5])
    && g1[4] == Add(Add(f[9], f[13]), g0[5])
    && g0[0] == f[0]
    && g1[3] == Add(Add(f[7], f[11]), f[15])
    && g0[3] == Add(Add(Add(f[6], f[10]), f[14]), g1[3])
    && g0[2] == Add(Add(Add(f[4], g0[4]), g0[3]), g1[3])
    && g1[1] == Add(Add(Add(Add(f[3], f[5]), f[9]), f[13]), g1[3])
    && g1[2] == Add(Add(f[3], g1[1]), g0[3])
    && g0[1] == Add(Add(f[2], g0[2]), g1[1])
    && g1[0] == Add(f[1], g0[1])
  }

  lemma Radix4(f: Poly)
    requires |f| == 16
    ensures Pow2(4) == 16 && Pow2(3) == 8 && Table4(f, Radix(f, 4).0, Radix(f, 4).1)
  {
    hide Add;
    assert Pow2(2) == 4 && Pow2(3) == 8;
    RadixUnfold(f, 4);
    var q, r := High(f, 4), Low(f, 4);
    Radix3(q);
    Radix3(r);
    HighLow4(f);
    var q0, q1, r0, r1 := Radix(q, 3).0, Radix(q, 3).1, Radix(r, 3).0, Radix(r, 3).1;
    Radix4High(f, q, q0, q1);
    Radix4Low(f, q, r, r0, r1);
    var g0, g1 := Radix(f, 4).0, Radix(f, 4).1;
    assert g0[4] == q0[0] && g0[5] == q0[1] && g0[6] == q0[2] && g0[7] == q0[3];
    assert g1[4] == q1[0] && g1[5] == q1[1] && g1[6] == q1[2] && g1[7] == q1[3];
  }

  ghost predicate HighParts(f: Poly, q: Poly)
    requires |f| == 16 && |q| == 8
  {
    && (forall i :: 0 <= i < 4 ==> q[i] == Add(f[8 + i], f[12 + i]))
    && (forall i :: 4 <= i < 8 ==> q[i] == f[8 + i])
  }

  ghost predicate LowParts(f: Poly, q: Poly, r: Poly)
    requires |f| == 16 && |q| == |r| == 8
  {
    && (forall i :: 0 <= i < 4 ==> r[i] == f[i])
    && (forall i :: 4 <= i < 8 ==> r[i] == Add(f[i], q[i - 4]))
  }

  lemma HighLow4(f: Poly)
    requires |f| == 16
    ensures HighParts(f, High(f, 4)) && LowParts(f, High(f, 4), Low(f, 4))
  {
    hide Add;
  }

  lemma Radix4High(f: Poly, q: Poly, q0: Poly, q1: Poly)
    requires |f| == 16 && |q| == 8 && |q0| == |q1| == 4 && Table3(q, q0, q1)
    requires HighParts(f, q)
    ensures q0[0] == Add(f[8], f[12])
    ensures q0[2] == Add(f[12], f[14])
    ensures q0[3] == Add(f[14], f[15])
    ensures q1[1] == Add(f[11], f[13])
    ensures q1[2] == Add(f[13], f[14])
    ensures q1[3] == f[15]
    ensures q0[1] == Add(Add(f[10], f[12]), q1[1])
    ensures q1[0] == Add(Add(f[9], f[13]), q0[1])
  {
    hide Add;
    assert q[0] == Add(f[8], f[12]) && q[1] == Add(f[9], f[13]) && q[2] == Add(f[10], f[14]) && q[3] == Add(f[11], f[15]);
    assert q[4] == f[12] && q[5] == f[13] && q[6] == f[14] && q[7] == f[15];
    SumDrop(f[11], f[15], f[13]);
    SumCancel(f[10], f[14], f[12]);
  }

  lemma SumDrop(a: Elt, b: Elt, c: Elt)
    ensures Add(Add(Add(a, b), c), b) == Add(a, c)
  {}

  lemma Radix4Low(f: Poly, q: Poly, r: Poly, r0: Poly, r1: Poly)
    requires |f| == 16 && |q| == |r| == 8 && |r0| == |r1| == 4 && Table3(r, r0, r1)
    requires HighParts(f, q) && LowParts(f, q, r)
    ensures r0[0] == f[0]
    ensures r1[3] == Add(Add(f[7], f[11]), f[15])
    ensures r0[3] == Add(Add(Add(f[6], f[10]), f[14]), r1[3])
    ensures r0[2] == Add(Add(Add(f[4], Add(f[8], f[12])), r0[3]), r1[3])
    ensures r1[1] == Add(Add(Add(Add(f[3], f[5]), f[9]), f[13]), r1[3])
    ensures r1[2] == Add(Add(f[3], r1[1]), r0[3])
    ensures r0[1] == Add(Add(f[2], r0[2]), r1[1])
    ensures r1[0] == Add(f[1], r0[1])
  {
    hide Add;
    assert r[0] == f[0] && r[1] == f[1] && r[2] == f[2] && r[3] == f[3];
    assert r[4] == Add(f[4], Add(f[8], f[12])) && r[5] == Add(f[5], Add(f[9], f[13]));
    assert r[6] == Add(f[6], Add(f[10], f[14])) && r[7] == Add(f[7], Add(f[11], f[15]));
    AddAssoc(f[7], f[11], f[15]);
    AddAssoc(f[6], f[10], f[14]);
    SumTwice(r[4], r[6], r[7]);
    SumPair(f[3], f[5], f[9], f[13]);
    SumBack(f[3], r[5], r[7], r[6]);
  }

  lemma SumTwice(a: Elt, b: Elt, c: Elt)
    ensures Add(Add(a, Add(b, c)), c) == Add(a, b)
  {}

  lemma SumPair(a: Elt, b: Elt, c: Elt, d: Elt)
    ensures Add(a, Add(b, Add(c, d))) == Add(Add(Add(a, b), c), d)
  {}

  lemma SumBack(a: Elt, b: Elt, c: Elt, d: Elt)
    ensures Add(Add(a, Add(Add(a, b), c)), Add(d, c)) == Add(b, d)
  {}
}
