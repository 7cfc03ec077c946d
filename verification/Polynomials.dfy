/** Polynomials over GF(2^8) as coefficient sequences, and their action on sequences of symbols. */
module Polynomials {
  import opened Gf256

  type Poly = seq<Elt>

  /** The sum of p[i] * s(n - i) over i < m. */
  function Apply(p: Poly, s: int -> Elt, n: int, m: nat): Elt
    requires m <= |p|
  {
    if m == 0 then ZERO else Add(Apply(p, s, n, m - 1), Mul(p[m - 1], s(n - (m - 1))))
  }

  function Act(p: Poly, s: int -> Elt, n: int): Elt { Apply(p, s, n, |p|) }

  lemma {:induction false} ApplyAgree(p: Poly, q: Poly, s: int -> Elt, n: int, m: nat)
    requires m <= |p| && m <= |q| && p[..m] == q[..m]
    ensures Apply(p, s, n, m) == Apply(q, s, n, m)
  {
    hide Add, Mul;
    if m > 0 {
      assert p[..m - 1] == p[..m][..m - 1] && q[..m - 1] == q[..m][..m - 1];
      ApplyAgree(p, q, s, n, m - 1);
      assert p[m - 1] == p[..m][m - 1] && q[m - 1] == q[..m][m - 1];
    }
  }

  /** The action is linear in the sequence and commutes with delays. */
  lemma {:induction false} ApplyLinear(q: Poly, u: int -> Elt, v: int -> Elt, w: int -> Elt, c: Elt, d: int, n: int, m: nat)
    requires m <= |q|
    requires forall k {:trigger u(k)} :: u(k) == Add(v(k), Mul(c, w(k - d)))
    ensures Apply(q, u, n, m) == Add(Apply(q, v, n, m), Mul(c, Apply(q, w, n - d, m)))
  {
    hide Add, Mul;
    if m == 0 {
      MulOne(c);
      AddZero(ZERO);
    } else {
      var k := n - (m - 1);
      ApplyLinear(q, u, v, w, c, d, n, m - 1);
      assert n - d - (m - 1) == k - d;
      MulAdd(q[m - 1], v(k), Mul(c, w(k - d)));
      MulSwap(q[m - 1], c, w(k - d));
      AddRegroup(Apply(q, v, n, m - 1), Mul(c, Apply(q, w, n - d, m - 1)), Mul(q[m - 1], v(k)), Mul(c, Mul(q[m - 1], w(k - d))));
      MulAdd(c, Apply(q, w, n - d, m - 1), Mul(q[m - 1], w(k - d)));
    }
  }

  lemma MulSwap(a: Elt, b: Elt, c: Elt)
    ensures Mul(a, Mul(b, c)) == Mul(b, Mul(a, c))
  {
    hide Mul;
    MulAssoc(a, b, c);
    MulComm(a, b);
    MulAssoc(b, a, c);
  }

  /** Polynomial actions commute: applying q then p is applying p then q. */
  lemma {:induction false} ApplyExchange(p: Poly, q: Poly, s: int -> Elt, n: int, m: nat)
    requires m <= |p|
    ensures Apply(p, k => Act(q, s, k), n, m) == Act(q, k => Apply(p, s, k, m), n)
  {
    hide Add, Mul;
    if m == 0 {
      ApplyZeros(q, k => ZERO, n, |q|);
      ApplyZeros(q, k => Apply(p, s, k, 0), n, |q|);
    } else {
      ApplyExchange(p, q, s, n, m - 1);
      ApplyLinear(q, k => Apply(p, s, k, m), k => Apply(p, s, k, m - 1), s, p[m - 1], m - 1, n, |q|);
    }
  }

  lemma {:induction false} ApplyZeros(q: Poly, u: int -> Elt, n: int, m: nat)
    requires m <= |q|
    requires forall i :: 0 <= i < m ==> q[i] == ZERO || u(n - i) == ZERO
    ensures Apply(q, u, n, m) == ZERO
  {
    hide Add, Mul;
    if m > 0 {
      ApplyZeros(q, u, n, m - 1);
      MulOne(q[m - 1]);
      MulOne(u(n - (m - 1)));
      AddZero(ZERO);
    }
  }

  /** Only the constant term counts when the others meet zero symbols. */
  lemma {:induction false} ApplyHead(q: Poly, u: int -> Elt, n: int, m: nat)
    requires 1 <= m <= |q| && q[0] == ONE
    requires forall i :: 1 <= i < m ==> q[i] == ZERO || u(n - i) == ZERO
    ensures Apply(q, u, n, m) == u(n)
  {
    hide Add, Mul;
    if m == 1 {
      assert Apply(q, u, n, 0) == ZERO;
      MulOne(u(n));
      AddZero(u(n));
    } else {
      ApplyHead(q, u, n, m - 1);
      MulOne(q[m - 1]);
      MulOne(u(n - (m - 1)));
      AddZero(u(n));
    }
  }
}
