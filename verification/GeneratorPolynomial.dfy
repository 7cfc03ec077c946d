/** The generator polynomial of the Reed-Solomon code vanishes at alpha, alpha^2, .., alpha^30. */
module GeneratorPolynomial {
  import opened Gf256
  import opened GfArithmetic
  import opened Polynomials
  import opened PowerSums
  import opened RadixConversion
  import opened AdditiveFft
  import opened ErrorLocator
  import opened ErrorPositions

  /** RS_POLY_COEFS, constant coefficient first. */
  function Coef(k: nat): bv8
    requires k <= 30
  {
    match k
    case 0 => 89 case 1 => 69 case 2 => 153 case 3 => 116 case 4 => 176 case 5 => 117 case 6 => 111 case 7 => 75
    case 8 => 73 case 9 => 233 case 10 => 242 case 11 => 233 case 12 => 65 case 13 => 210 case 14 => 21 case 15 => 139
    case 16 => 103 case 17 => 173 case 18 => 67 case 19 => 118 case 20 => 105 case 21 => 210 case 22 => 174 case 23 => 110
    case 24 => 74 case 25 => 69 case 26 => 228 case 27 => 82 case 28 => 255 case 29 => 181 case _ => 1
  }

  /** The coefficients of g(alpha * x). */
  function Twisted(k: nat): bv8
    requires k <= 30
  {
    match k
    case 0 => 89 case 1 => 138 case 2 => 94 case 3 => 135 case 4 => 207 case 5 => 6 case 6 => 194 case 7 => 110
    case 8 => 230 case 9 => 142 case 10 => 9 case 11 => 2 case 12 => 224 case 13 => 101 case 14 => 114 case 15 => 173
    case 16 => 102 case 17 => 19 case 18 => 248 case 19 => 132 case 20 => 120 case 21 => 253 case 22 => 121 case 23 => 162
    case 24 => 111 case 25 => 207 case 26 => 98 case 27 => 255 case 28 => 224 case 29 => 188 case _ => 96
  }

  /** The powers alpha^0 .. alpha^30. */
  function PowerOf(k: nat): bv8
    requires k <= 30
  {
    match k
    case 0 => 1 case 1 => 2 case 2 => 4 case 3 => 8 case 4 => 16 case 5 => 32 case 6 => 64 case 7 => 128
    case 8 => 29 case 9 => 58 case 10 => 116 case 11 => 232 case 12 => 205 case 13 => 135 case 14 => 19 case 15 => 38
    case 16 => 76 case 17 => 152 case 18 => 45 case 19 => 90 case 20 => 180 case 21 => 117 case 22 => 234 case 23 => 201
    case 24 => 143 case 25 => 3 case 26 => 6 case 27 => 12 case 28 => 24 case 29 => 48 case _ => 96
  }

  /** The generator polynomial g. */
  function Generator(): (g: Poly)
    ensures |g| == 31
  {
    seq(31, k requires 0 <= k < 31 => Elt(Coef(k)))
  }

  function TwistedGenerator(): (g: Poly)
    ensures |g| == 31
  {
    seq(31, k requires 0 <= k < 31 => Elt(Twisted(k)))
  }

  /** The facts about one coefficient that make (1 + x) * g(x) = (1 + alpha^225 * x) * g(alpha * x). */
  predicate Check(p0: bv8, g0: bv8, t0: bv8, p: bv8, g: bv8, t: bv8) {
    && p == Double(p0)
    && t == FlatMul(p, g)
    && g ^ FlatMul(1, g0) == t ^ FlatMul(36, t0)
  }

  predicate Consistent(k: nat)
    requires 1 <= k <= 30
  {
    Check(PowerOf(k - 1), Coef(k - 1), Twisted(k - 1), PowerOf(k), Coef(k), Twisted(k))
  }

  lemma Values0()
    ensures Check(1, 89, 89, 2, 69, 138)
    ensures Check(2, 69, 138, 4, 153, 94)
    ensures Check(4, 153, 94, 8, 116, 135)
    ensures Check(8, 116, 135, 16, 176, 207)
    ensures Check(16, 176, 207, 32, 117, 6)
    ensures Check(32, 117, 6, 64, 111, 194)
    ensures Check(64, 111, 194, 128, 75, 110)
    ensures Check(128, 75, 110, 29, 73, 230)
    ensures Check(29, 73, 230, 58, 233, 142)
    ensures Check(58, 233, 142, 116, 242, 9)
  {}

  lemma Consistent0()
    ensures Consistent(1) && Consistent(2) && Consistent(3) && Consistent(4) && Consistent(5)
    ensures Consistent(6) && Consistent(7) && Consistent(8) && Consistent(9) && Consistent(10)
  {
    hide Check, Double, FlatMul;
    Values0();
  }

  lemma Values1()
    ensures Check(116, 242, 9, 232, 233, 2)
    ensures Check(232, 233, 2, 205, 65, 224)
    ensures Check(205, 65, 224, 135, 210, 101)
    ensures Check(135, 210, 101, 19, 21, 114)
    ensures Check(19, 21, 114, 38, 139, 173)
    ensures Check(38, 139, 173, 76, 103, 102)
    ensures Check(76, 103, 102, 152, 173, 19)
    ensures Check(152, 173, 19, 45, 67, 248)
    ensures Check(45, 67, 248, 90, 118, 132)
    ensures Check(90, 118, 132, 180, 105, 120)
  {}

  lemma Consistent1()
    ensures Consistent(11) && Consistent(12) && Consistent(13) && Consistent(14) && Consistent(15)
  {
    hide Check, Double, FlatMul;
    Values1();
  }

  lemma Consistent2()
    ensures Consistent(16) && Consistent(17) && Consistent(18) && Consistent(19) && Consistent(20)
  {
    hide Check, Double, FlatMul;
    Values1();
  }

  lemma Values2()
    ensures Check(180, 105, 120, 117, 210, 253)
    ensures Check(117, 210, 253, 234, 174, 121)
    ensures Check(234, 174, 121, 201, 110, 162)
    ensures Check(201, 110, 162, 143, 74, 111)
    ensures Check(143, 74, 111, 3, 69, 207)
    ensures Check(3, 69, 207, 6, 228, 98)
    ensures Check(6, 228, 98, 12, 82, 255)
    ensures Check(12, 82, 255, 24, 255, 224)
    ensures Check(24, 255, 224, 48, 181, 188)
    ensures Check(48, 181, 188, 96, 1, 96)
  {}

  lemma Consistent3()
    ensures Consistent(21) && Consistent(22) && Consistent(23) && Consistent(24) && Consistent(25)
  {
    hide Check, Double, FlatMul;
    Values2();
  }

  lemma Consistent4()
    ensures Consistent(26) && Consistent(27) && Consistent(28) && Consistent(29) && Consistent(30)
  {
    hide Check, Double, FlatMul;
    Values2();
  }

  lemma AllConsistent(k: nat)
    requires 1 <= k <= 30
    ensures Consistent(k)
  {
    hide Consistent;
    Consistent0();
    Consistent1();
    Consistent2();
    Consistent3();
    Consistent4();
    if k <= 10 {
      assert k == 1 || k == 2 || k == 3 || k == 4 || k == 5 || k == 6 || k == 7 || k == 8 || k == 9 || k == 10;
    } else if k <= 20 {
      assert k == 11 || k == 12 || k == 13 || k == 14 || k == 15 || k == 16 || k == 17 || k == 18 || k == 19 || k == 20;
    } else {
      assert k == 21 || k == 22 || k == 23 || k == 24 || k == 25 || k == 26 || k == 27 || k == 28 || k == 29 || k == 30;
    }
  }

  // ---- from the coefficients to the values

  lemma {:induction false} PowerTable(k: nat)
    requires k <= 30
    ensures Elt(PowerOf(k)) == Power(Elt(2), k)
  {
    hide Consistent, Mul, Double, Coef, Twisted, PowerOf;
    if k == 0 {
      TableEnds();
    } else {
      PowerTable(k - 1);
      AllConsistent(k);
      PowerStep(PowerOf(k - 1), PowerOf(k));
      ConsistentPower(k);
    }
  }

  lemma TableEnds()
    ensures PowerOf(0) == 1 && PowerOf(30) == 96 && Twisted(0) == Coef(0) && Twisted(30) == 96 && Coef(30) == 1
  {}

  lemma PowerStep(p0: bv8, p: bv8)
    ensures p == Double(p0) ==> Elt(p) == Mul(Elt(2), Elt(p0))
  {
    hide Double, Mul;
    if p == Double(p0) {
      XtimeDouble(Elt(p0));
      assert Shifted(ONE, 1) == Elt(2) by { ShiftedOne(1); }
      MulShifted(ONE, Elt(p0), 1);
      OneMul(Elt(p0));
      assert Shifted(Elt(p0), 1) == Xtime(Elt(p0));
    }
  }

  lemma ConsistentPower(k: nat)
    requires 1 <= k <= 30 && Consistent(k)
    ensures PowerOf(k) == Double(PowerOf(k - 1))
    ensures Elt(Twisted(k)) == Mul(Elt(PowerOf(k)), Elt(Coef(k)))
    ensures Add(Elt(Coef(k)), Mul(ONE, Elt(Coef(k - 1)))) == Add(Elt(Twisted(k)), Mul(Elt(36), Elt(Twisted(k - 1))))
  {
    hide FlatMul, Double, Mul, Coef, Twisted, PowerOf;
    FlatMulCorrect(Elt(PowerOf(k)), Elt(Coef(k)));
    FlatMulCorrect(ONE, Elt(Coef(k - 1)));
    FlatMulCorrect(Elt(36), Elt(Twisted(k - 1)));
  }

  /** (1 + x) * g(x) = (1 + alpha^225 * x) * g(alpha * x). */
  lemma Functional(x: Elt)
    ensures Mul(Add(ONE, Mul(ONE, x)), Value(Generator(), x))
         == Mul(Add(ONE, Mul(Elt(36), x)), Value(Generator(), Mul(Elt(2), x)))
  {
    hide Add, Mul, Value, Consistent, Double, Power, Coef, Twisted, PowerOf;
    var g, t := Generator(), TwistedGenerator();
    forall k | 0 <= k < 31
      ensures t[k] == Mul(Power(Elt(2), 0 + k), g[k])
    {
      TwistedCoefficient(k);
    }
    ValueTwist(g, t, Elt(2), 0, x);
    MulOne(Value(g, Mul(Elt(2), x)));
    assert Power(Elt(2), 0) == ONE by { PowerZero(Elt(2)); }
    SameProduct();
    TimesLinearValue(g, ONE, x);
    TimesLinearValue(t, Elt(36), x);
  }

  lemma PowerZero(x: Elt)
    ensures Power(x, 0) == ONE
  {}

  lemma TwistedCoefficient(k: nat)
    requires k <= 30
    ensures Elt(Twisted(k)) == Mul(Power(Elt(2), k), Elt(Coef(k)))
  {
    hide Consistent, Mul, Double, Power, Coef, Twisted, PowerOf;
    PowerTable(k);
    if k == 0 {
      PowerZero(Elt(2));
      MulOne(Elt(Coef(0)));
      TableEnds();
    } else {
      AllConsistent(k);
      ConsistentPower(k);
    }
  }

  lemma SameProduct()
    ensures TimesLinear(Generator(), ONE) == TimesLinear(TwistedGenerator(), Elt(36))
  {
    hide Consistent, Mul, Double, Add, Coef, Twisted, PowerOf;
    var p, q := TimesLinear(Generator(), ONE), TimesLinear(TwistedGenerator(), Elt(36));
    forall k | 0 <= k < 32
      ensures p[k] == q[k]
    {
      if k == 0 {
        TableEnds();
      } else if k <= 30 {
        AllConsistent(k);
        ConsistentPower(k);
      } else {
        TableEnds();
        LastProduct();
      }
    }
  }

  lemma LastProduct()
    ensures Mul(ONE, Elt(1)) == Mul(Elt(36), Elt(96))
  {
    hide Mul;
    FlatMulCorrect(ONE, Elt(1));
    FlatMulCorrect(Elt(36), Elt(96));
    assert FlatMul(1, 1) == FlatMul(36, 96);
  }

  lemma AlphaIsTwo(j: nat)
    ensures Alpha(j + 1) == Mul(Elt(2), Alpha(j))
    ensures Mul(Elt(36), Alpha(30)) == ONE
  {
    hide Mul, Shifted;
    assert Alpha(1) == Elt(2) by { ShiftedOne(1); }
    AlphaAdd(1, j);
    PowerTable(30);
    AlphaPower(30);
    TableEnds();
    LastProduct();
    MulOne(ONE);
  }

  lemma {:induction false} AlphaPower(k: nat)
    ensures Alpha(k) == Power(Elt(2), k)
  {
    hide Mul, Shifted;
    if k == 0 {
      ShiftedOne(0);
    } else {
      AlphaPower(k - 1);
      AlphaAdd(1, k - 1);
      assert Alpha(1) == Elt(2) by { ShiftedOne(1); }
    }
  }

  /** The roots of g, one after the other: the step from alpha^(j-1) to alpha^j. */
  lemma {:induction false} GeneratorRoot(j: nat)
    requires 1 <= j <= 30
    ensures Value(Generator(), Alpha(j)) == ZERO
  {
    hide Add, Mul, Value, Shifted, Generator;
    var x := Alpha(j - 1);
    Functional(x);
    AlphaIsTwo(j - 1);
    if j == 1 {
      assert x == ONE by { ShiftedOne(0); }
    } else {
      GeneratorRoot(j - 1);
    }
    MulOne(x);
    MulOne(Add(ONE, x));
    MulOne(Value(Generator(), x));
    AddZero(ONE);
    var c := Add(ONE, Mul(Elt(36), x));
    MulNonzero(c, Value(Generator(), Mul(Elt(2), x)));
    AddCancel(ONE, Mul(Elt(36), x));
    if Mul(Elt(36), x) == ONE {
      AlphaIsTwo(0);
      AlphaNonzero(30);
      Elt36();
      MulCancel(Elt(36), x, Alpha(30));
      AlphaInjective(j - 1, 30);
    }
  }

  lemma Elt36()
    ensures Elt(36) != ZERO
  {}
}
