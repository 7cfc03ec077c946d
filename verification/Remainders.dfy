/** Facts about remainders. */
module Remainders {

  lemma SmallMod(a: nat, m: nat)
    requires a < m
    ensures a % m == a
  {}

  lemma StepMod(a: nat, m: nat)
    requires m >= 1
    ensures (a + 1) % m == if a % m + 1 == m then 0 else a % m + 1
  {
    var q, r := a / m, a % m;
    assert a == m * q + r;
    if r + 1 == m {
      assert a + 1 == m * (q + 1);
      Remainder(a + 1, m, q + 1, 0);
    } else {
      Remainder(a + 1, m, q, r + 1);
    }
  }

  lemma Remainder(a: nat, m: nat, q: int, r: nat)
    requires r < m && a == m * q + r
    ensures a % m == r
  {
    var p, t := a / m, a % m;
    assert a == m * p + t;
    assert m * (p - q) == r - t by { assert m * (p - q) == m * p - m * q; }
    if p != q {
      Multiple(m, p - q);
    }
  }

  lemma Multiple(m: nat, d: int)
    requires d != 0
    ensures m * d >= m || m * d <= -(m as int)
  {
    if d >= 1 {
      assert m * (d - 1) >= 0;
    } else {
      assert m * (-1 - d) >= 0;
    }
  }

  lemma SubtractMod(a: nat, m: nat)
    requires 1 <= m <= a
    ensures (a - m) % m == a % m
  {
    var q, r := a / m, a % m;
    assert a == m * q + r;
    assert a - m == m * (q - 1) + r;
    Remainder(a - m, m, q - 1, r);
  }
}
