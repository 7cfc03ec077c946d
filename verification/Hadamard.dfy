/** The Walsh-Hadamard transform: seven passes of sums and differences against the sum over all points. */
module Hadamard {

  /** The parity of the common bits of p and j, of the low n. */
  predicate Odd(p: nat, j: nat, n: nat) {
    n > 0 && ((p % 2 == 1 && j % 2 == 1) != Odd(p / 2, j / 2, n - 1))
  }

  function Signed(minus: bool, x: int): int { if minus then -x else x }

  /** The sum over p < m of (-1)^(p.j) * v[p]. */
  function Correlation(v: seq<int>, j: nat, n: nat, m: nat): int
    requires m <= |v|
  {
    if m == 0 then 0 else Correlation(v, j, n, m - 1) + Signed(Odd(m - 1, j, n), v[m - 1])
  }

  /** Sums (or differences) of neighbours. */
  function Half(v: seq<int>, minus: bool): (h: seq<int>)
    requires |v| % 2 == 0
    ensures |h| == |v| / 2
  {
    seq(|v| / 2, i requires 0 <= i < |v| / 2 => v[2 * i] + Signed(minus, v[2 * i + 1]))
  }

  /** One butterfly step halves the sum: bit 0 of p is summed out. */
  lemma {:induction false} CorrelationHalf(v: seq<int>, j: nat, n: nat, m: nat)
    requires |v| % 2 == 0 && 2 * m <= |v| && n > 0
    ensures Correlation(v, j, n, 2 * m) == Correlation(Half(v, j % 2 == 1), j / 2, n - 1, m)
  {
    if m > 0 {
      CorrelationHalf(v, j, n, m - 1);
      assert (2 * m - 1) / 2 == m - 1 == (2 * m - 2) / 2;
      assert Odd(2 * m - 1, j, n) == ((j % 2 == 1) != Odd(m - 1, j / 2, n - 1));
      assert Odd(2 * m - 2, j, n) == Odd(m - 1, j / 2, n - 1);
    }
  }

  // ---- the passes

  const N := 128

  function Pass(v: seq<int>): (w: seq<int>)
    requires |v| == N
    ensures |w| == N
  {
    seq(N, i requires 0 <= i < N => if i < 64 then v[2 * i] + v[2 * i + 1] else v[2 * (i - 64)] - v[2 * (i - 64) + 1])
  }

  function Passes(v: seq<int>, k: nat): (w: seq<int>)
    requires |v| == N
    ensures |w| == N
  {
    if k == 0 then v else Pass(Passes(v, k - 1))
  }

  /** 2^(7-k), the length of the block that still has to be summed after k passes. */
  function Span(k: nat): nat
    requires k <= 7
  {
    match k case 0 => 128 case 1 => 64 case 2 => 32 case 3 => 16 case 4 => 8 case 5 => 4 case 6 => 2 case _ => 1
  }

  function Growth(k: nat): nat
    requires k <= 7
  {
    match k case 0 => 1 case 1 => 2 case 2 => 4 case 3 => 8 case 4 => 16 case 5 => 32 case 6 => 64 case _ => 128
  }

  /** j without its first k bits. */
  function Rest(j: nat, k: nat): nat { if k == 0 then j else Rest(j, k - 1) / 2 }

  /** The first k bits of j as a number. */
  function First(j: nat, k: nat): nat
    requires k <= 7
  {
    if k == 0 then 0 else First(j, k - 1) + if Rest(j, k - 1) % 2 == 1 then Growth(k - 1) else 0
  }

  /** Where the block for j starts after k passes. */
  function Offset(j: nat, k: nat): nat
    requires k <= 7
  {
    First(j, k) * Span(k)
  }

  lemma {:induction false} FirstAndRest(j: nat, k: nat)
    requires k <= 7
    ensures j == First(j, k) + Growth(k) * Rest(j, k)
    ensures First(j, k) < Growth(k)
  {
    if k > 0 {
      hide Growth;
      FirstAndRest(j, k - 1);
      GrowthDoubles(k - 1);
      RestStep(Growth(k - 1), Growth(k), Rest(j, k - 1));
    } else {
      assert Growth(0) == 1;
    }
  }

  lemma GrowthDoubles(k: nat)
    requires k < 7
    ensures Growth(k + 1) == 2 * Growth(k)
  {}

  lemma RestStep(g: nat, g': nat, r: nat)
    requires g' == 2 * g
    ensures g * r == (if r % 2 == 1 then g else 0) + g' * (r / 2)
  {
    var h := r / 2;
    if r % 2 == 1 {
      assert g * (2 * h + 1) == g + 2 * g * h;
    } else {
      assert g * (2 * h) == 2 * g * h;
    }
  }

  lemma OffsetStep(j: nat, k: nat)
    requires k < 7
    ensures Span(k) == 2 * Span(k + 1) && Rest(j, k + 1) == Rest(j, k) / 2
    ensures Offset(j, k) % 2 == 0
    ensures Offset(j, k + 1) == Offset(j, k) / 2 + if Rest(j, k) % 2 == 1 then 64 else 0
  {
    var f, h := First(j, k), Span(k + 1);
    SpanGrowth(k);
    assert f * (2 * h) == 2 * (f * h);
    assert (f + Growth(k)) * h == f * h + Growth(k) * h;
  }

  lemma SpanGrowth(k: nat)
    requires k < 7
    ensures Span(k) == 2 * Span(k + 1) && Growth(k) * Span(k + 1) == 64
  {}

  lemma OffsetEnd(j: nat)
    requires j < N
    ensures Offset(j, 7) == j && Span(7) == 1
  {
    FirstAndRest(j, 7);
  }

  lemma HalfBlock(v: seq<int>, o: nat, s: nat, minus: bool)
    requires |v| == N && o % 2 == 0 && s % 2 == 0 && o + s <= N
    ensures Half(v[o..o + s], minus) == Pass(v)[o / 2 + (if minus then 64 else 0)..][..s / 2]
  {
    var h, t := Half(v[o..o + s], minus), o / 2 + if minus then 64 else 0;
    forall i | 0 <= i < s / 2 ensures h[i] == Pass(v)[t + i] {
      assert v[o..o + s][2 * i] == v[2 * (o / 2 + i)];
    }
  }

  /** After k passes the block at Offset(j, k) still has to be transformed at the remaining bits of j. */
  lemma {:induction false} PassesCorrelate(v: seq<int>, j: nat, k: nat)
    requires |v| == N && k <= 7 && j < N
    ensures Offset(j, k) + Span(k) <= N
    ensures Correlation(v, j, 7, N)
         == Correlation(Passes(v, k)[Offset(j, k)..][..Span(k)], Rest(j, k), 7 - k, Span(k))
  {
    hide Correlation, Half, Pass, Offset, Span, Rest;
    if k == 0 {
      OffsetStart(j);
      assert v[0..][..N] == v;
    } else {
      PassesCorrelate(v, j, k - 1);
      OffsetStep(j, k - 1);
      OffsetInside(j, k - 1);
      var a, o, s, r := Passes(v, k - 1), Offset(j, k - 1), Span(k - 1), Rest(j, k - 1);
      assert a[o..][..s] == a[o..o + s];
      HalfBlock(a, o, s, r % 2 == 1);
      CorrelationHalf(a[o..o + s], r, 8 - k, s / 2);
      OffsetInside(j, k);
    }
  }

  lemma OffsetStart(j: nat)
    ensures Offset(j, 0) == 0 && Span(0) == N && Rest(j, 0) == j
  {}

  lemma OffsetInside(j: nat, k: nat)
    requires k <= 7
    ensures Offset(j, k) + Span(k) <= N
  {
    FirstAndRest(j, k);
    assert First(j, k) * Span(k) + Span(k) == (First(j, k) + 1) * Span(k) <= Growth(k) * Span(k);
  }

  /** Seven passes compute the transform in natural order. */
  lemma SevenPasses(v: seq<int>, j: nat)
    requires |v| == N && j < N
    ensures Passes(v, 7)[j] == Correlation(v, j, 7, N)
  {
    hide Pass, Passes;
    PassesCorrelate(v, j, 7);
    OffsetEnd(j);
    var b := Passes(v, 7)[j..][..1];
    assert Correlation(b, Rest(j, 7), 0, 1) == b[0];
  }

  method PassInto(p1: array<int>, p2: array<int>)
    requires p1.Length == p2.Length == N && p1 != p2
    modifies p2
    ensures p2[..] == Pass(p1[..])
  {
    var i := 0;
    while i < 64
      invariant 0 <= i <= 64
      invariant forall r :: 0 <= r < i ==> p2[r] == p1[2 * r] + p1[2 * r + 1]
      invariant forall r :: 64 <= r < 64 + i ==> p2[r] == p1[2 * (r - 64)] - p1[2 * (r - 64) + 1]
    {
      p2[i] := p1[2 * i] + p1[2 * i + 1];
      p2[i + 64] := p1[2 * i] - p1[2 * i + 1];
      i := i + 1;
    }
  }

  /** Every entry of v is at most b in absolute value. */
  ghost predicate Within(v: seq<int>, b: nat) {
    forall i :: 0 <= i < |v| ==> v[i] <= b && -v[i] <= b
  }

  lemma PassGrowth(v: seq<int>, b: nat)
    requires |v| == N && Within(v, b)
    ensures Within(Pass(v), 2 * b)
  {
    forall i | 0 <= i < N
      ensures Pass(v)[i] <= 2 * b && -Pass(v)[i] <= 2 * b
    {
      var r := if i < 64 then i else i - 64;
      assert v[2 * r] <= b && -v[2 * r] <= b && v[2 * r + 1] <= b && -v[2 * r + 1] <= b;
    }
  }

  /** hadamard: dst holds the transform of src; entries of at most 3 stay within 16 bits throughout. */
  method Transform(src: array<int>, dst: array<int>)
    requires src.Length == dst.Length == N && src != dst
    requires Within(src[..], 3)
    modifies src, dst
    ensures forall j :: 0 <= j < N ==> dst[j] == Correlation(old(src[..]), j, 7, N)
    ensures Within(dst[..], 384)
  {
    hide Pass, Correlation;
    ghost var v := src[..];
    var p1, p2 := src, dst;
    var pass := 0;
    while pass < 7
      invariant 0 <= pass <= 7
      invariant if pass % 2 == 0 then p1 == src && p2 == dst else p1 == dst && p2 == src
      invariant p1[..] == Passes(v, pass)
      invariant Within(p1[..], 3 * Growth(pass)) && 3 * Growth(pass) <= 384
    {
      PassGrowth(p1[..], 3 * Growth(pass));
      PassInto(p1, p2);
      p1, p2 := p2, p1;
      pass := pass + 1;
    }
    forall j | 0 <= j < N
      ensures dst[j] == Correlation(v, j, 7, N)
    {
      SevenPasses(v, j);
    }
  }
}
