/** Polynomials over GF(2) given by their bits, and their products. */
module BinaryPolynomials {

  /** The coefficient of X^n in the product of the first m coefficients of f with g. */
  function Conv(f: int -> bool, m: nat, g: int -> bool, n: int): bool {
    m > 0 && (Conv(f, m - 1, g, n) != (f(m - 1) && g(n - (m - 1))))
  }

  lemma {:induction false} ConvSame(f: int -> bool, f': int -> bool, m: nat, g: int -> bool, g': int -> bool, n: int)
    requires forall k {:trigger f(k)} :: 0 <= k < m ==> f(k) == f'(k)
    requires forall k {:trigger g(k)} :: n - m < k <= n ==> g(k) == g'(k)
    ensures Conv(f, m, g, n) == Conv(f', m, g', n)
  {
    if m > 0 { ConvSame(f, f', m - 1, g, g', n); }
  }

  /** The product is additive in the left factor. */
  lemma {:induction false} ConvAddLeft(f: int -> bool, f1: int -> bool, f2: int -> bool, m: nat, g: int -> bool, n: int)
    requires forall k {:trigger f(k)} :: 0 <= k < m ==> f(k) == (f1(k) != f2(k))
    ensures Conv(f, m, g, n) == (Conv(f1, m, g, n) != Conv(f2, m, g, n))
  {
    if m > 0 {
      ConvAddLeft(f, f1, f2, m - 1, g, n);
      assert f(m - 1) == (f1(m - 1) != f2(m - 1));
    }
  }

  /** .. and in the right factor, where a delay by d is a multiplication by X^d. */
  lemma {:induction false} ConvAddRight(f: int -> bool, m: nat, g: int -> bool, g1: int -> bool, g2: int -> bool, d: int, n: int)
    requires forall k {:trigger g(k)} :: g(k) == (g1(k) != g2(k - d))
    ensures Conv(f, m, g, n) == (Conv(f, m, g1, n) != Conv(f, m, g2, n - d))
  {
    if m > 0 {
      ConvAddRight(f, m - 1, g, g1, g2, d, n);
      var k := n - (m - 1);
      assert g(k) == (g1(k) != g2(k - d));
      assert n - d - (m - 1) == k - d;
    }
  }

  /** Splitting the left factor at X^m. */
  lemma {:induction false} ConvSplit(f: int -> bool, low: int -> bool, high: int -> bool, m: nat, h: nat, g: int -> bool, n: int)
    requires forall k {:trigger f(k)} :: 0 <= k < m ==> f(k) == low(k)
    requires forall k {:trigger high(k)} :: 0 <= k < h ==> f(m + k) == high(k)
    ensures Conv(f, m + h, g, n) == (Conv(low, m, g, n) != Conv(high, h, g, n - m))
  {
    if h == 0 {
      ConvSame(f, low, m, g, g, n);
    } else {
      ConvSplit(f, low, high, m, h - 1, g, n);
      assert f(m + (h - 1)) == high(h - 1);
      assert n - m - (h - 1) == n - (m + h - 1);
    }
  }

  lemma {:induction false} ConvTail(f: int -> bool, m: nat, h: nat, g: int -> bool, n: int)
    requires m <= h && forall k {:trigger f(k)} :: m <= k < h ==> !f(k)
    ensures Conv(f, h, g, n) == Conv(f, m, g, n)
  {
    if m < h { ConvTail(f, m, h - 1, g, n); }
  }

  lemma {:induction false} ConvZero(f: int -> bool, m: nat, g: int -> bool, n: int)
    requires forall k {:trigger g(k)} :: n - m < k <= n ==> !g(k)
    ensures !Conv(f, m, g, n)
  {
    if m > 0 { ConvZero(f, m - 1, g, n); }
  }

  /** Multiplying by the single term X^j. */
  lemma {:induction false} ConvMonomial(f: int -> bool, m: nat, g: int -> bool, j: int, n: int)
    requires forall k {:trigger g(k)} :: g(k) == (k == j)
    ensures Conv(f, m, g, n) == (0 <= n - j < m && f(n - j))
  {
    if m > 0 {
      ConvMonomial(f, m - 1, g, j, n);
      assert g(n - (m - 1)) == (n - (m - 1) == j);
    }
  }

  /** Products can be taken in either order: f * (g * s) = g * (f * s). */
  lemma {:induction false} ConvExchange(f: int -> bool, m: nat, g: int -> bool, h: nat, s: int -> bool, n: int)
    ensures Conv(f, m, k => Conv(g, h, s, k), n) == Conv(g, h, k => Conv(f, m, s, k), n)
  {
    if m == 0 {
      ConvZero(g, h, k => Conv(f, 0, s, k), n);
    } else {
      ConvExchange(f, m - 1, g, h, s, n);
      ExchangeStep(f, m, g, h, s, n, k => Conv(f, m, s, k), k => Conv(f, m - 1, s, k));
    }
  }

  lemma ExchangeStep(f: int -> bool, m: nat, g: int -> bool, h: nat, s: int -> bool, n: int, c: int -> bool, c1: int -> bool)
    requires m > 0
    requires forall k {:trigger c(k)} :: c(k) == Conv(f, m, s, k)
    requires forall k {:trigger c1(k)} :: c1(k) == Conv(f, m - 1, s, k)
    ensures Conv(g, h, c, n) == (Conv(g, h, c1, n) != (f(m - 1) && Conv(g, h, s, n - (m - 1))))
  {
    var d := m - 1;
    if f(d) {
      forall k {:trigger c(k)} ensures c(k) == (c1(k) != s(k - d)) {
        assert c1(k) == Conv(f, m - 1, s, k);
      }
      ConvAddRight(g, h, c, c1, s, d, n);
    } else {
      forall k {:trigger c(k)} ensures c(k) == c1(k) {
        assert c1(k) == Conv(f, m - 1, s, k);
      }
      ConvSame(g, g, h, c, c1, n);
    }
  }
}
