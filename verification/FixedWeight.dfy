/** Sampling a vector of a given Hamming weight: a rejection loop over the seed expander, then the bits in place. */
module FixedWeight {
  import opened Octets
  import opened Remainders
  import opened Sponge
  import opened KeccakSponge
  import opened ShakeStreams
  import Words64
  import CyclicRing

  const N := CyclicRing.N
  const WORDS := CyclicRing.WORDS
  const OMEGA_R := 75

  /** UTILS_REJECTION_THRESHOLD. */
  const THRESHOLD := 16767881

  // ---- the random numbers and the support they determine ----

  /** A source of random bytes: the seed expander in state u, asked for 3 * w bytes at a time. */
  datatype Source = Source(f: State -> State, u: Running, w: nat)

  ghost predicate Good(src: Source) {
    Ready(Shake(src.f), src.u) && 1 <= src.w <= OMEGA_R
  }

  /** The state after c chunks. */
  ghost function AfterChunks(src: Source, c: nat): (v: Running)
    requires Good(src)
    ensures Ready(Shake(src.f), v)
  {
    AfterSqueeze(Shake(src.f), src.u, c * Drawn(3 * src.w))
  }

  ghost function Chunk(src: Source, c: nat): (b: seq<Octet>)
    requires Good(src)
    ensures |b| == 3 * src.w
  {
    Output(Shake(src.f), AfterChunks(src, c), 3 * src.w)
  }

  /** Three bytes, most significant first. */
  function Triple(b: seq<Octet>, k: nat): (x: nat)
    requires k + 3 <= |b|
    ensures x < 0x1000000
  {
    65536 * Value(b[k]) + 256 * Value(b[k + 1]) + Value(b[k + 2])
  }

  /** It is the number that the three bytes stand for. */
  lemma TripleNumber(b: seq<Octet>, k: nat)
    requires k + 3 <= |b|
    ensures Triple(b, k) == Number(b[k..k + 3])
  {
    hide Value;
    var s := b[k..k + 3];
    assert s == [b[k], b[k + 1], b[k + 2]];
    assert s[..2] == [b[k], b[k + 1]];
    assert s[..2][..1] == [b[k]];
    assert Number(s[..2]) == 256 * Number([b[k]]) + Value(b[k + 1]);
  }

  /** The random number number t. */
  ghost function Draw(src: Source, t: nat): (x: nat)
    requires Good(src)
    ensures x < 0x1000000
  {
    Triple(Chunk(src, t / src.w), 3 * (t % src.w))
  }

  /** The next multiple of eight. */
  function RoundedUp(n: nat): nat { (n + 7) / 8 * 8 }

  lemma DrawnIsRounded(n: nat)
    ensures Drawn(n) == RoundedUp(n)
  {}

  /** Where random number t lies in the stream: after whole chunks, each rounded up to a multiple of eight bytes. */
  function DrawOffset(w: nat, t: nat): nat
    requires w > 0
  {
    t / w * RoundedUp(3 * w) + 3 * (t % w)
  }

  /** The chunk c that random number t lies in, the place k there, and the bytes d before that chunk. */
  lemma DrawPlace(src: Source, t: nat) returns (c: nat, k: nat, d: nat)
    requires Good(src)
    ensures d == c * Drawn(3 * src.w) && k + 3 <= 3 * src.w && DrawOffset(src.w, t) == d + k
    ensures Draw(src, t) == Triple(Chunk(src, c), k)
  {
    hide RoundedUp, Drawn, Chunk, Triple;
    c, k := t / src.w, 3 * (t % src.w);
    d := c * Drawn(3 * src.w);
    DrawnIsRounded(3 * src.w);
  }

  /** Random number t is the number of three successive bytes of the stream. */
  lemma DrawFromStream(src: Source, t: nat, n: nat)
    requires Good(src) && DrawOffset(src.w, t) + 3 <= n
    ensures var at := DrawOffset(src.w, t); Draw(src, t) == Number(Output(Shake(src.f), src.u, n)[at..at + 3])
  {
    hide Output, AfterSqueeze, Number, Value, Drawn, DrawOffset, Triple, Draw, Chunk;
    var c, k, d := DrawPlace(src, t);
    BytesInChunk(src, c, d, k, n);
    TripleNumber(Chunk(src, c), k);
  }

  lemma BytesInChunk(src: Source, c: nat, d: nat, k: nat, n: nat)
    requires Good(src) && d == c * Drawn(3 * src.w) && k + 3 <= 3 * src.w && d + k + 3 <= n
    ensures Output(Shake(src.f), src.u, n)[d + k..d + k + 3] == Chunk(src, c)[k..k + 3]
  {
    hide Output, AfterSqueeze, Drawn;
    var m, b := Shake(src.f), Chunk(src, c);
    var x, y, z := Output(m, src.u, n), Output(m, src.u, d + 3 * src.w), Output(m, src.u, d + k + 3);
    SqueezeChunks(m, src.u, d, 3 * src.w);
    assert y == Output(m, src.u, d) + b;
    OutputPrefix(m, src.u, d + k + 3, d + 3 * src.w);
    OutputPrefix(m, src.u, d + k + 3, n);
    assert x[d + k..d + k + 3] == z[d + k..] == y[d + k..d + k + 3];
  }

  lemma OutputPrefix(m: Mode, u: Running, a: nat, n: nat)
    requires Ready(m, u) && a <= n
    ensures Output(m, u, n)[..a] == Output(m, u, a)
  {
    hide Output;
    SqueezeChunks(m, u, a, n - a);
  }

  /** The different positions among the first t random numbers, in order of appearance; large numbers are rejected. */
  ghost function Support(src: Source, t: nat): (s: seq<nat>)
    requires Good(src)
    ensures forall p <- s :: p < N
    ensures forall i, j :: 0 <= i < j < |s| ==> s[i] != s[j]
  {
    if t == 0 then []
    else
      var s, x := Support(src, t - 1), Draw(src, t - 1);
      if x >= THRESHOLD || x % N in s then s else s + [x % N]
  }

  /** They are exactly the remainders of the numbers below the threshold. */
  lemma {:induction false} SupportMembers(src: Source, t: nat, p: nat)
    requires Good(src)
    ensures p in Support(src, t) <==> exists i: nat :: i < t && Draw(src, i) < 16767881 && Draw(src, i) % 17669 == p
  {
    hide Draw;
    if t > 0 {
      SupportMembers(src, t - 1, p);
      var x := Draw(src, t - 1);
      if p in Support(src, t) && p !in Support(src, t - 1) {
        assert x < 16767881 && x % 17669 == p;
      }
    }
  }

  lemma {:induction false} SupportGrows(src: Source, t: nat, n: nat)
    requires Good(src) && t <= n
    ensures Support(src, t) <= Support(src, n)
    decreases n - t
  {
    hide Draw;
    if t < n {
      SupportGrows(src, t, n - 1);
    }
  }

  /** The accepted numbers that are reduced to p. */
  ghost function Preimages(p: nat, n: nat): (s: set<nat>)
    requires p < N
  {
    set k | 0 <= k < n :: p + N * k
  }

  lemma {:induction false} CountPreimages(p: nat, n: nat)
    requires p < N
    ensures |Preimages(p, n)| == n
  {
    if n > 0 {
      CountPreimages(p, n - 1);
      assert Preimages(p, n) == Preimages(p, n - 1) + {p + N * (n - 1)};
      assert p + N * (n - 1) !in Preimages(p, n - 1);
    }
  }

  /** Every position has exactly 949 accepted 24-bit numbers, so acceptance favours none. */
  lemma EvenlySampled(p: nat)
    requires p < N
    ensures |set x: nat | x < 0x1000000 && x < THRESHOLD && x % N == p| == 949
  {
    CountPreimages(p, 949);
    var accepted := set x: nat | x < 0x1000000 && x < THRESHOLD && x % N == p;
    forall x: nat ensures x in accepted <==> x in Preimages(p, 949) {
      if x in accepted {
        assert x == p + N * (x / N) && x / N < 949;
      }
      if x in Preimages(p, 949) {
        var k :| 0 <= k < 949 && x == p + N * k;
        Remainder(x, N, k, p);
      }
    }
    assert accepted == Preimages(p, 949);
  }

  // ---- the rejection loop ----

  /** rand holds the chunk that random number t is next read from, at byte j; c chunks were drawn. */
  ghost predicate Buffered(src: Source, view: Running, rand: seq<Octet>, j: nat, t: nat, c: nat)
    requires Good(src)
  {
    && |rand| == 3 * OMEGA_R
    && j % 3 == 0 && j <= 3 * src.w
    && t + src.w == c * src.w + j / 3
    && view == AfterChunks(src, c)
    && (j < 3 * src.w ==> c >= 1 && rand[..3 * src.w] == Chunk(src, c - 1))
  }

  lemma ChunkStart(src: Source, view: Running, rand: seq<Octet>, t: nat, c: nat)
    requires Good(src) && Buffered(src, view, rand, 3 * src.w, t, c)
    ensures t == c * src.w
    ensures AfterSqueeze(Shake(src.f), view, Drawn(3 * src.w)) == AfterChunks(src, c + 1)
    ensures t + src.w == (c + 1) * src.w
  {
    hide AfterSqueeze;
    var d := Drawn(3 * src.w);
    SqueezeChunks(Shake(src.f), src.u, c * d, d);
    assert c * d + d == (c + 1) * d;
    assert (c + 1) * src.w == c * src.w + src.w;
  }

  /** Where random number t lies in the chunk. */
  lemma DrawAt(src: Source, rand: seq<Octet>, j: nat, t: nat, c: nat)
    requires Good(src) && j % 3 == 0 && j < 3 * src.w && c >= 1 && t + src.w == c * src.w + j / 3
    requires |rand| >= 3 * src.w && rand[..3 * src.w] == Chunk(src, c - 1)
    ensures j + 3 <= 3 * src.w && Triple(rand, j) == Draw(src, t)
  {
    hide Value;
    assert t == src.w * (c - 1) + j / 3;
    Remainder(t, src.w, c - 1, j / 3);
    Quotient(t, src.w, c - 1, j / 3);
    var b := rand[..3 * src.w];
    assert b[j] == rand[j] && b[j + 1] == rand[j + 1] && b[j + 2] == rand[j + 2];
  }

  lemma Quotient(a: nat, m: nat, q: nat, r: nat)
    requires r < m && a == m * q + r
    ensures a / m == q
  {
    Remainder(a, m, q, r);
    assert m * (a / m) == m * q;
    if a / m != q {
      Multiple(m, a / m - q);
    }
  }

  /** The body of the inner loop: refill when the buffer is used up, then read three bytes. */
  method NextDraw(state: Incremental, f: State -> State, rand: array<Octet>, at: nat, w: nat,
                  ghost src: Source, ghost t: nat, ghost chunks: nat)
    returns (x: nat, j: nat, ghost c: nat)
    requires Good(src) && src.f == f && src.w == w && state.Valid(Shake(f)) && rand != state.s && rand.Length == 3 * OMEGA_R
    requires Buffered(src, state.View(), rand[..], at, t, chunks)
    modifies state`count, state.s, rand
    ensures state.Valid(Shake(f)) && x == Draw(src, t)
    ensures Buffered(src, state.View(), rand[..], j, t + 1, c) && j >= 3
  {
    hide AfterChunks, Chunk, AfterSqueeze, Draw, Value;
    j, c := at, chunks;
    if j == 3 * w {
      ChunkStart(src, state.View(), rand[..], t, c);
      ChunkIs(src, c);
      SeedExpander(state, f, rand, 3 * w);
      j, c := 0, c + 1;
    }
    DrawAt(src, rand[..], j, t, c);
    x := 65536 * Value(rand[j]) + 256 * Value(rand[j + 1]) + Value(rand[j + 2]);
    j := j + 3;
  }

  lemma ChunkIs(src: Source, c: nat)
    requires Good(src)
    ensures Chunk(src, c) == Output(Shake(src.f), AfterChunks(src, c), 3 * src.w)
  {}

  lemma SupportStep(src: Source, t: nat)
    requires Good(src)
    ensures var s, x := Support(src, t), Draw(src, t);
      Support(src, t + 1) == if x >= THRESHOLD || x % N in s then s else s + [x % N]
  {}

  /** t random numbers hold src.w different positions, fewer do not, and c chunks were drawn for them. */
  ghost predicate FirstEnough(src: Source, t: nat, c: nat)
    requires Good(src)
  {
    && |Support(src, t)| == src.w
    && (forall n: nat {:trigger Support(src, n)} :: n < t ==> |Support(src, n)| < src.w)
    && c * src.w - src.w < t <= c * src.w
  }

  /** The sampling loop. It returns when, as the limit witnesses, the stream holds enough different positions, and then
      with the first of them, after the first number of draws that suffices; the byte index stays within the buffer. */
  method SampleSupport(state: Incremental, f: State -> State, w: nat, ghost limit: nat)
    returns (support: array<nat>, ghost t: nat, ghost c: nat)
    requires state.Valid(Shake(f)) && 1 <= w <= OMEGA_R
    requires |Support(Source(f, state.View(), w), limit)| >= w
    modifies state`count, state.s
    ensures fresh(support) && support.Length == OMEGA_R && state.Valid(Shake(f))
    ensures var src := Source(f, old(state.View()), w);
      support[..w] == Support(src, t) && t <= limit && FirstEnough(src, t, c) && state.View() == AfterChunks(src, c)
  {
    hide Draw, Buffered, AfterChunks, Chunk, Support;
    ghost var src := Source(f, state.View(), w);
    support := new nat[OMEGA_R](_ => 0);
    var rand := new Octet[3 * OMEGA_R](_ => NULL);
    var i: nat, j: nat := 0, 3 * w;
    t, c := 0, 0;
    BufferEmpty(src, state.View(), rand[..]);
    while i < w
      invariant 0 <= i <= w && t <= limit && state.Valid(Shake(f)) && (t == 0 || j >= 3)
      invariant fresh(rand) && rand != state.s
      invariant Buffered(src, state.View(), rand[..], j, t, c)
      invariant Support(src, t) == support[..i]
      invariant forall n: nat {:trigger Support(src, n)} :: n < t ==> |Support(src, n)| < w
      decreases limit - t
    {
      var x;
      while true
        invariant t <= limit && state.Valid(Shake(f))
        invariant fresh(rand) && rand != state.s
        invariant Buffered(src, state.View(), rand[..], j, t, c)
        invariant Support(src, t) == support[..i]
        invariant forall n: nat {:trigger Support(src, n)} :: n < t ==> |Support(src, n)| < w
        decreases limit - t
      {
        x, j, c := NextDraw(state, f, rand, j, w, src, t, c);
        SupportStep(src, t);
        t := t + 1;
        if x < THRESHOLD {
          break;
        }
      }
      ghost var s := support[..i];
      support[i] := x % N;
      var inc := 1;
      for k := 0 to i
        invariant inc == if support[i] in support[..k] then 0 else 1
      {
        if support[k] == support[i] {
          inc := 0;
        }
      }
      assert support[..i] == s && support[..i + 1] == s + [x % N];
      i := i + inc;
    }
    ChunksUsed(src, state.View(), rand[..], j, t, c);
  }

  lemma ChunksUsed(src: Source, view: Running, rand: seq<Octet>, j: nat, t: nat, c: nat)
    requires Good(src) && Buffered(src, view, rand, j, t, c) && (t == 0 || j >= 3)
    requires |Support(src, t)| == src.w
    ensures view == AfterChunks(src, c) && c * src.w - src.w < t <= c * src.w
  {}

  /** The precondition of the loop is exact: limit draws suffice just when the loop ends within them. */
  lemma {:induction false} EnoughDraws(src: Source, limit: nat)
    requires Good(src)
    ensures |Support(src, limit)| >= src.w <==> exists t: nat, c: nat :: t <= limit && FirstEnough(src, t, c)
  {
    hide Support;
    if t: nat, c: nat :| t <= limit && FirstEnough(src, t, c) {
      SupportGrows(src, t, limit);
    } else if |Support(src, limit)| >= src.w {
      var t := FirstDraw(src, limit);
      var c := ChunkCount(t, src.w);
      assert FirstEnough(src, t, c);
    }
  }

  lemma {:induction false} FirstDraw(src: Source, limit: nat) returns (t: nat)
    requires Good(src) && |Support(src, limit)| >= src.w
    ensures t <= limit && |Support(src, t)| == src.w
    ensures forall n: nat {:trigger Support(src, n)} :: n < t ==> |Support(src, n)| < src.w
  {
    hide Support;
    t := 0;
    SupportEmpty(src);
    while |Support(src, t)| < src.w
      invariant t <= limit && |Support(src, t)| <= src.w
      invariant forall n: nat {:trigger Support(src, n)} :: n < t ==> |Support(src, n)| < src.w
      decreases limit - t
    {
      SupportStep(src, t);
      t := t + 1;
    }
  }

  lemma SupportEmpty(src: Source)
    requires Good(src)
    ensures Support(src, 0) == []
  {}

  lemma {:induction false} ChunkCount(t: nat, w: nat) returns (c: nat)
    requires w > 0
    ensures c * w - w < t <= c * w
  {
    if t == 0 {
      c := 0;
    } else {
      var d := ChunkCount(t - 1, w);
      c := if t <= d * w then d else d + 1;
      assert (d + 1) * w == d * w + w;
    }
  }

  lemma BufferEmpty(src: Source, view: Running, rand: seq<Octet>)
    requires Good(src) && view == src.u && |rand| == 3 * OMEGA_R
    ensures Buffered(src, view, rand, 3 * src.w, 0, 0) && Support(src, 0) == []
  {
    assert 0 * Drawn(3 * src.w) == 0;
  }

  // ---- the bits ----

  /** The vector with the bits of the support added. */
  ghost predicate Marked(before: seq<Words64.Word>, v: seq<Words64.Word>, support: seq<nat>) {
    |v| == |before| && forall p: nat :: Words64.BitOf(v, p) <==> Words64.BitOf(before, p) || (p < 64 * |v| && p in support)
  }

  /** 1 ^ ((x | -x) >> 31), the constant-time test for zero. */
  lemma ZeroTest(x: bv32)
    ensures 1 ^ ((x | (0 - x)) >> 31) == if x == 0 then 1 else 0
  {}

  function Or(a: Words64.Word, b: Words64.Word): Words64.Word {
    seq(64, k requires 0 <= k < 64 => a[k] || b[k])
  }

  /** The word with only bit k set. */
  function Single(k: nat): Words64.Word
    requires k < 64
  {
    seq(64, i => i == k)
  }

  /** The positions of the support that fall into word i, as a word. */
  ghost predicate Gathered(val: Words64.Word, support: seq<nat>, i: nat) {
    forall k | 0 <= k < 64 :: val[k] <==> (64 * i + k) in support
  }

  /** The word of the support bits at word i. */
  method Gather(indexTab: array<nat>, bitTab: array<Words64.Word>, support: array<nat>, w: nat, i: nat) returns (val: Words64.Word)
    requires w <= indexTab.Length && w <= bitTab.Length && w <= support.Length
    requires forall k :: 0 <= k < w ==> indexTab[k] == support[k] / 64 && bitTab[k] == Single(support[k] % 64)
    ensures Gathered(val, support[..w], i)
  {
    hide Single, Or;
    val := Words64.Zero();
    for j := 0 to w
      invariant Gathered(val, support[..j], i)
    {
      assert support[..j + 1] == support[..j] + [support[j]];
      if i == indexTab[j] {
        OneMore(val, support[..j], i, support[j]);
        val := Or(val, bitTab[j]);
      } else {
        NoMore(val, support[..j], i, support[j]);
      }
    }
  }

  /** vect_set_random_fixed_weight after the sampling. */
  method SetBits(v: array<Words64.Word>, support: array<nat>, w: nat)
    requires v.Length == WORDS && w <= OMEGA_R <= support.Length
    requires forall k :: 0 <= k < w ==> support[k] < N
    modifies v
    ensures Marked(old(v[..]), v[..], support[..w])
  {
    hide Or, Single, WordMarked, Gathered;
    var indexTab, bitTab := new nat[OMEGA_R](_ => 0), new Words64.Word[OMEGA_R](_ => Words64.Zero());
    for i := 0 to w
      modifies indexTab, bitTab
      invariant forall k :: 0 <= k < i ==> indexTab[k] == support[k] / 64 && bitTab[k] == Single(support[k] % 64)
    {
      indexTab[i] := support[i] / 64;
      bitTab[i] := Single(support[i] % 64);
    }
    for i := 0 to WORDS
      modifies v
      invariant forall k :: i <= k < WORDS ==> v[k] == old(v[k])
      invariant forall k :: 0 <= k < i ==> WordMarked(old(v[k]), v[k], support[..w], k)
    {
      var val := Gather(indexTab, bitTab, support, w, i);
      OrMarks(v[i], val, support[..w], i);
      v[i] := Or(v[i], val);
    }
    WordsMarked(old(v[..]), v[..], support[..w]);
  }

  ghost predicate WordMarked(before: Words64.Word, now: Words64.Word, support: seq<nat>, i: nat) {
    forall k | 0 <= k < 64 :: now[k] <==> before[k] || (64 * i + k) in support
  }

  lemma OrMarks(before: Words64.Word, val: Words64.Word, support: seq<nat>, i: nat)
    requires Gathered(val, support, i)
    ensures WordMarked(before, Or(before, val), support, i)
  {}

  lemma OneMore(val: Words64.Word, s: seq<nat>, i: nat, p: nat)
    requires Gathered(val, s, i) && p / 64 == i
    ensures Gathered(Or(val, Single(p % 64)), s + [p], i)
  {
    forall k | 0 <= k < 64 ensures Or(val, Single(p % 64))[k] <==> (64 * i + k) in s + [p] {
    }
  }

  lemma NoMore(val: Words64.Word, s: seq<nat>, i: nat, p: nat)
    requires Gathered(val, s, i) && p / 64 != i
    ensures Gathered(val, s + [p], i)
  {
    forall k | 0 <= k < 64 ensures val[k] <==> (64 * i + k) in s + [p] {
      assert (64 * i + k) / 64 == i;
    }
  }

  lemma WordsMarked(before: seq<Words64.Word>, v: seq<Words64.Word>, support: seq<nat>)
    requires |v| == |before| && forall k :: 0 <= k < |v| ==> WordMarked(before[k], v[k], support, k)
    ensures Marked(before, v, support)
  {
    forall p: nat ensures Words64.BitOf(v, p) <==> Words64.BitOf(before, p) || (p < 64 * |v| && p in support) {
      if p < 64 * |v| {
        assert WordMarked(before[p / 64], v[p / 64], support, p / 64);
        assert 64 * (p / 64) + p % 64 == p;
      }
    }
  }

  /** vect_set_random_fixed_weight: the bits set are those of the sampled support. */
  method SetRandomFixedWeight(state: Incremental, f: State -> State, v: array<Words64.Word>, w: nat, ghost limit: nat)
    returns (ghost t: nat, ghost c: nat)
    requires state.Valid(Shake(f)) && 1 <= w <= OMEGA_R && v.Length == WORDS
    requires |Support(Source(f, state.View(), w), limit)| >= w
    modifies state`count, state.s, v
    ensures state.Valid(Shake(f))
    ensures var src := Source(f, old(state.View()), w);
      Marked(old(v[..]), v[..], Support(src, t)) && t <= limit && FirstEnough(src, t, c) && state.View() == AfterChunks(src, c)
  {
    hide Support, FirstEnough, AfterChunks;
    var support;
    support, t, c := SampleSupport(state, f, w, limit);
    SupportSmall(Source(f, old(state.View()), w), t);
    assert forall k :: 0 <= k < w ==> support[k] == support[..w][k];
    SetBits(v, support, w);
  }

  lemma SupportSmall(src: Source, t: nat)
    requires Good(src)
    ensures forall k :: 0 <= k < |Support(src, t)| ==> Support(src, t)[k] < N
    ensures forall i, j :: 0 <= i < j < |Support(src, t)| ==> Support(src, t)[i] != Support(src, t)[j]
  {}

  ghost function SetBitsOf(v: seq<Words64.Word>): set<int> {
    set p | 0 <= p < 64 * |v| && Words64.BitOf(v, p)
  }

  ghost function Members(s: seq<nat>): set<int> {
    set p | p in s
  }

  lemma {:induction false} DistinctCount(s: seq<nat>)
    requires forall i, j :: 0 <= i < j < |s| ==> s[i] != s[j]
    ensures |Members(s)| == |s|
  {
    if s != [] {
      var n := |s| - 1;
      DistinctCount(s[..n]);
      assert Members(s) == Members(s[..n]) + {s[n]};
    }
  }

  /** On a zeroed vector the result has weight w exactly, below position N. */
  lemma ExactWeight(src: Source, t: nat, before: seq<Words64.Word>, v: seq<Words64.Word>)
    requires Good(src) && |Support(src, t)| == src.w && |before| == WORDS
    requires forall k :: 0 <= k < WORDS ==> before[k] == Words64.Zero()
    requires Marked(before, v, Support(src, t))
    ensures |SetBitsOf(v)| == src.w
    ensures forall p <- SetBitsOf(v) :: p < N
  {
    hide Support;
    var s := Support(src, t);
    SupportSmall(src, t);
    DistinctCount(s);
    assert SetBitsOf(v) == Members(s);
  }
}
