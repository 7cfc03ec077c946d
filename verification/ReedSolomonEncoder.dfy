/** reed_solomon_encode: the shift register leaves msg(x) * x^30 mod g(x) below the message. */
module ReedSolomonEncoder {
  import opened Gf256
  import opened GfArithmetic
  import opened Polynomials
  import opened PowerSums
  import opened RadixConversion
  import opened GeneratorPolynomial

  const PARITY := 30
  const MESSAGE := 16
  const LENGTH := 46

  /** One clock of the shift register: r becomes x * r + m * x^30 reduced by g. */
  function Clock(r: Poly, m: Elt): (r': Poly)
    requires |r| == PARITY
    ensures |r'| == PARITY
  {
    var gate := Add(m, r[PARITY - 1]);
    seq(PARITY, k requires 0 <= k < PARITY => Add(if k == 0 then ZERO else r[k - 1], Mul(gate, Generator()[k])))
  }

  /** The register after i message symbols, the last symbol first. */
  function Register(msg: Poly, i: nat): (r: Poly)
    requires |msg| == MESSAGE && i <= MESSAGE
    ensures |r| == PARITY
  {
    if i == 0 then seq(PARITY, k => ZERO) else Clock(Register(msg, i - 1), msg[MESSAGE - i])
  }

  function Codeword(msg: Poly): (c: Poly)
    requires |msg| == MESSAGE
    ensures |c| == LENGTH
  {
    Register(msg, MESSAGE) + msg
  }

  method ReedSolomonEncode(msg: Poly) returns (cdw: Poly)
    requires |msg| == MESSAGE
    ensures cdw == Codeword(msg)
  {
    hide Add, Mul, Generator, Clock;
    var bytes := new Elt[LENGTH](i => ZERO);
    assert bytes[..PARITY] == Register(msg, 0);
    var i := 0;
    while i < MESSAGE
      invariant 0 <= i <= MESSAGE
      invariant bytes[..PARITY] == Register(msg, i)
    {
      ClockInPlace(bytes, msg[MESSAGE - 1 - i]);
      i := i + 1;
    }
    cdw := bytes[..PARITY] + msg;
  }

  /** gate * g. */
  method Feedback(gate: Elt) returns (tmp: seq<Elt>)
    ensures |tmp| == 31 && forall k :: 0 <= k < 31 ==> tmp[k] == Mul(gate, Generator()[k])
  {
    hide Mul, Generator;
    var g := Generator();
    tmp := [];
    var j := 0;
    while j < 31
      invariant 0 <= j <= 31 && |tmp| == j
      invariant forall k :: 0 <= k < j ==> tmp[k] == Mul(gate, g[k])
    {
      tmp := tmp + [Mul(gate, g[j])];
      j := j + 1;
    }
  }

  method ClockInPlace(bytes: array<Elt>, m: Elt)
    requires bytes.Length == LENGTH
    modifies bytes
    ensures bytes[..PARITY] == Clock(old(bytes[..PARITY]), m)
  {
    hide Add, Mul, Generator;
    ghost var r := bytes[..PARITY];
    var tmp := Feedback(Add(m, bytes[PARITY - 1]));
    var k := PARITY - 1;
    while k > 0
      invariant 0 <= k < PARITY
      invariant forall l :: 0 <= l <= k ==> bytes[l] == r[l]
      invariant forall l :: k < l < PARITY ==> bytes[l] == Add(r[l - 1], tmp[l])
    {
      bytes[k] := Add(bytes[k - 1], tmp[k]);
      k := k - 1;
    }
    bytes[0] := tmp[0];
    AddZero(tmp[0]);
  }

  // ---- the codeword is a multiple of g

  /** The gate values so far: the quotient of the division by g. */
  function Gates(msg: Poly, i: nat): (q: Poly)
    requires |msg| == MESSAGE && i <= MESSAGE
    ensures |q| == i
  {
    if i == 0 then [] else [Add(msg[MESSAGE - i], Register(msg, i - 1)[PARITY - 1])] + Gates(msg, i - 1)
  }

  lemma GeneratorTop()
    ensures Generator()[30] == ONE
  {
    TableEnds();
  }

  lemma ClockValue(r: Poly, m: Elt, x: Elt)
    requires |r| == PARITY
    ensures Add(Value(Clock(r, m), x), Mul(Power(x, PARITY), m))
         == Add(Mul(x, Value(r, x)), Mul(Add(m, r[PARITY - 1]), Value(Generator(), x)))
  {
    hide Add, Mul, Value, Generator, Power;
    var g := Generator();
    var top, gate, p := r[PARITY - 1], Add(m, r[PARITY - 1]), Power(x, PARITY);
    var a, b := [ZERO] + r[..PARITY - 1], seq(PARITY, k requires 0 <= k < PARITY => Mul(gate, g[k]));
    assert Clock(r, m) == Plus(a, b);
    ValuePlus(a, b, x);
    ValueScaled(g[..PARITY], b, gate, x);
    // x * r = a + x^30 * top
    var low := Value(r[..PARITY - 1], x);
    ValueConcat([ZERO], r[..PARITY - 1], x);
    ValueSingle(ZERO, x);
    PowerOne(x);
    AddZero(Mul(x, low));
    assert r == r[..PARITY - 1] + [top];
    ValueConcat(r[..PARITY - 1], [top], x);
    ValueSingle(top, x);
    MulAdd(x, low, Mul(Power(x, PARITY - 1), top));
    MulAssoc(x, Power(x, PARITY - 1), top);
    PowerNext(x, PARITY - 1);
    // g = g[..30] + x^30
    assert g == g[..PARITY] + [g[30]];
    ValueConcat(g[..PARITY], [g[30]], x);
    GeneratorTop();
    ValueSingle(ONE, x);
    MulOne(p);
    ClockAlgebra(Value(a, x), Value(g[..PARITY], x), p, top, m);
  }

  lemma PowerOne(x: Elt)
    ensures Power(x, 1) == x
  {
    hide Mul;
    assert Power(x, 0) == ONE;
    MulOne(x);
  }

  lemma PowerNext(x: Elt, k: nat)
    ensures Power(x, k + 1) == Mul(x, Power(x, k))
  {
    hide Mul;
  }

  lemma ClockAlgebra(a: Elt, g: Elt, p: Elt, top: Elt, m: Elt)
    ensures Add(Add(a, Mul(Add(m, top), g)), Mul(p, m))
         == Add(Add(a, Mul(p, top)), Mul(Add(m, top), Add(g, p)))
  {
    hide Add, Mul;
    var gate := Add(m, top);
    MulAdd(gate, g, p);
    MulComm(gate, p);
    MulAdd(p, m, top);
    ClockSum(a, Mul(gate, g), Mul(p, m), Mul(p, top));
  }

  lemma ClockSum(a: Elt, b: Elt, c: Elt, d: Elt)
    ensures Add(Add(a, b), c) == Add(Add(a, d), Add(b, Add(c, d)))
  {}

  lemma {:induction false} RegisterDivides(msg: Poly, i: nat, x: Elt)
    requires |msg| == MESSAGE && i <= MESSAGE
    ensures Add(Value(Register(msg, i), x), Mul(Power(x, PARITY), Value(msg[MESSAGE - i..], x)))
         == Mul(Value(Generator(), x), Value(Gates(msg, i), x))
  {
    hide Add, Mul, Value, Generator, Power, Clock;
    var g, p := Value(Generator(), x), Power(x, PARITY);
    if i == 0 {
      ValueZeros(PARITY, x);
      assert Register(msg, 0) == seq(PARITY, k => ZERO);
      assert msg[MESSAGE..] == [] && Gates(msg, 0) == [];
      ValueEmpty(x);
      MulOne(p);
      MulOne(g);
      AddZero(ZERO);
    } else {
      var m, rest, r := msg[MESSAGE - i], msg[MESSAGE - i + 1..], Register(msg, i - 1);
      var gate := Add(m, r[PARITY - 1]);
      var q := Gates(msg, i - 1);
      RegisterDivides(msg, i - 1, x);
      ClockValue(r, m, x);
      assert msg[MESSAGE - i..] == [m] + rest;
      ValueCons(m, rest, x);
      ValueCons(gate, q, x);
      DivideAlgebra(Value(Clock(r, m), x), Value(r, x), Value(rest, x), Value(q, x), g, p, x, m, gate);
    }
  }

  lemma ValueEmpty(x: Elt)
    ensures Value([], x) == ZERO
  {}

  lemma ValueCons(a: Elt, p: Poly, x: Elt)
    ensures Value([a] + p, x) == Add(a, Mul(x, Value(p, x)))
  {
    hide Add, Mul;
    assert ([a] + p)[1..] == p;
  }

  lemma DivideAlgebra(c: Elt, r: Elt, v: Elt, q: Elt, g: Elt, p: Elt, x: Elt, m: Elt, gate: Elt)
    requires Add(c, Mul(p, m)) == Add(Mul(x, r), Mul(gate, g))
    requires Add(r, Mul(p, v)) == Mul(g, q)
    ensures Add(c, Mul(p, Add(m, Mul(x, v)))) == Mul(g, Add(gate, Mul(x, q)))
  {
    hide Add, Mul;
    MulAdd(p, m, Mul(x, v));
    MulSwap(p, x, v);
    AddAssoc(c, Mul(p, m), Mul(x, Mul(p, v)));
    MulAdd(x, r, Mul(p, v));
    MulSwap(x, g, q);
    MulAdd(g, gate, Mul(x, q));
    MulComm(g, gate);
    AddAssoc(Mul(x, r), Mul(gate, g), Mul(x, Mul(p, v)));
    AddComm(Mul(gate, g), Mul(x, Mul(p, v)));
    AddAssoc(Mul(x, r), Mul(x, Mul(p, v)), Mul(gate, g));
    AddComm(Mul(x, Add(r, Mul(p, v))), Mul(gate, g));
  }

  /** As a polynomial the codeword is g times the quotient. */
  lemma CodewordMultiple(msg: Poly, x: Elt)
    requires |msg| == MESSAGE
    ensures Value(Codeword(msg), x) == Mul(Value(Generator(), x), Value(Gates(msg, MESSAGE), x))
  {
    hide Add, Mul, Value, Generator, Power, Register, Gates;
    RegisterDivides(msg, MESSAGE, x);
    assert msg[0..] == msg;
    ValueConcat(Register(msg, MESSAGE), msg, x);
  }

  /** Every codeword vanishes at the thirty roots of g. */
  lemma CodewordRoot(msg: Poly, j: nat)
    requires |msg| == MESSAGE && 1 <= j <= PARITY
    ensures Value(Codeword(msg), Alpha(j)) == ZERO
  {
    hide Add, Mul, Value, Generator, Codeword, Shifted;
    CodewordMultiple(msg, Alpha(j));
    GeneratorRoot(j);
    MulOne(Value(Gates(msg, MESSAGE), Alpha(j)));
  }
}
