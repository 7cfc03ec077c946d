/** The vectors that key generation and encryption draw from seeds: vect_set_random, and the fixed-weight vectors in order. */
module KeySampling {
  import opened Octets
  import opened Sponge
  import opened KeccakSponge
  import opened ShakeStreams
  import opened FixedWeight
  import W = Words64
  import Ring = CyclicRing

  const SEED_BYTES := 40
  const OMEGA := 66
  const OMEGA_E := 75

  // ---- vect_set_random

  predicate ByteBit(a: Octet, j: nat)
    requires j < 8
  {
    (a.v >> j) & 1 == 1
  }

  /** Bit k of a run of bytes, false outside. */
  predicate BytesBit(b: seq<Octet>, k: int) {
    0 <= k < 8 * |b| && ByteBit(b[k / 8], k % 8)
  }

  /** The first 17669 bits of the bytes. */
  function RandomVector(b: seq<Octet>): (v: Ring.Vec) {
    Ring.Vector((k: int) => BytesBit(b, k))
  }

  /** memcpy of the bytes over word i, which keeps its bits beyond them. */
  function Copied(b: seq<Octet>, i: nat, was: W.Word): W.Word {
    seq(W.BITS, k requires 0 <= k < W.BITS => if W.BITS * i + k < 8 * |b| then BytesBit(b, W.BITS * i + k) else was[k])
  }

  /** vect_set_random: the mask on the last word clears what the bytes leave of it, too. */
  method SetRandom(state: Incremental, f: State -> State, v: array<W.Word>)
    requires state.Valid(Shake(f)) && v.Length == WORDS
    modifies state`count, state.s, v
    ensures state.Valid(Shake(f)) && state.View() == AfterSqueeze(Shake(f), old(state.View()), Drawn(Ring.VECTOR_BYTES))
    ensures v[..] == RandomVector(Output(Shake(f), old(state.View()), Ring.VECTOR_BYTES))
    ensures var b := Output(Shake(f), old(state.View()), Ring.VECTOR_BYTES);
      forall k {:trigger W.BitOf(v[..], k)} :: W.BitOf(v[..], k) == (0 <= k < 17669 && (b[k / 8].v >> (k % 8)) & 1 == 1)
  {
    hide AfterSqueeze, Output, RandomVector, Copied;
    var bytes := new Octet[Ring.VECTOR_BYTES](_ => NULL);
    ghost var u := state.View();
    SeedExpander(state, f, bytes, Ring.VECTOR_BYTES);
    ghost var b := bytes[..];
    assert b == bytes[..Ring.VECTOR_BYTES] == Output(Shake(f), u, Ring.VECTOR_BYTES);
    for i := 0 to WORDS
      modifies v
      invariant bytes[..] == b && forall k :: i <= k < WORDS ==> v[k] == old(v[k])
      invariant forall k :: 0 <= k < i ==> v[k] == Copied(b, k, old(v[k]))
    {
      v[i] := Copied(bytes[..], i, v[i]);
    }
    v[WORDS - 1] := W.LowMask(v[WORDS - 1], 5);
    CopiedVector(b, old(v[..]), v[..]);
    VectorBits(b);
  }

  lemma VectorBits(b: seq<Octet>)
    requires |b| == Ring.VECTOR_BYTES
    ensures forall k {:trigger W.BitOf(RandomVector(b), k)} ::
      W.BitOf(RandomVector(b), k) == (0 <= k < 17669 && (b[k / 8].v >> (k % 8)) & 1 == 1)
  {
    hide W.BitOf;
    forall k {:trigger W.BitOf(RandomVector(b), k)}
      ensures W.BitOf(RandomVector(b), k) == (0 <= k < 17669 && (b[k / 8].v >> (k % 8)) & 1 == 1)
    {
      Ring.VectorBit((j: int) => BytesBit(b, j), k);
    }
  }

  lemma CopiedVector(b: seq<Octet>, before: seq<W.Word>, v: seq<W.Word>)
    requires |b| == Ring.VECTOR_BYTES && |before| == |v| == WORDS
    requires forall k :: 0 <= k < WORDS - 1 ==> v[k] == Copied(b, k, before[k])
    requires v[WORDS - 1] == W.LowMask(Copied(b, WORDS - 1, before[WORDS - 1]), 5)
    ensures v == RandomVector(b)
  {
    hide BytesBit;
    forall i | 0 <= i < WORDS
      ensures v[i] == RandomVector(b)[i]
    {
      forall k | 0 <= k < W.BITS
        ensures v[i][k] == RandomVector(b)[i][k]
      {
      }
    }
  }

  // ---- the fixed-weight vectors

  /** v has the bits of the first w different positions in the stream u, which continues as next. */
  ghost predicate Weighted(f: State -> State, u: Running, w: nat, v: Ring.Vec, next: Running) {
    && Good(Source(f, u, w))
    && exists t: nat, c: nat :: WeightedBy(Source(f, u, w), v, next, t, c)
  }

  ghost predicate WeightedBy(src: Source, v: Ring.Vec, next: Running, t: nat, c: nat)
    requires Good(src)
  {
    FirstEnough(src, t, c) && Marked(Zeros(), v, Support(src, t)) && next == AfterChunks(src, c)
  }

  function Zeros(): Ring.Vec { seq(WORDS, i => W.Zero()) }

  /** vs are vectors of the weights ws, drawn from the stream u one after another. */
  ghost predicate Drew(f: State -> State, u: Running, ws: seq<nat>, vs: seq<Ring.Vec>)
    decreases |ws|
  {
    && |vs| == |ws|
    && (ws != [] ==> exists next :: Weighted(f, u, ws[0], vs[0], next) && Drew(f, next, ws[1..], vs[1..]))
  }

  /** The vectors drawn have exactly these weights, and no bit from X^N on. */
  lemma {:induction false} DrewExact(f: State -> State, u: Running, ws: seq<nat>, vs: seq<Ring.Vec>, i: nat)
    requires Drew(f, u, ws, vs) && i < |ws|
    ensures |SetBitsOf(vs[i])| == ws[i] && Ring.Short(vs[i])
    decreases |ws|
  {
    hide Weighted, SetBitsOf, Ring.Short;
    var next :| Weighted(f, u, ws[0], vs[0], next) && Drew(f, next, ws[1..], vs[1..]);
    if i == 0 {
      WeightedExact(f, u, ws[0], vs[0], next);
    } else {
      DrewExact(f, next, ws[1..], vs[1..], i - 1);
    }
  }

  lemma WeightedExact(f: State -> State, u: Running, w: nat, v: Ring.Vec, next: Running)
    requires Weighted(f, u, w, v, next)
    ensures |SetBitsOf(v)| == w && Ring.Short(v)
  {
    hide Support, Marked, W.BitOf;
    var src := Source(f, u, w);
    var t: nat, c: nat :| WeightedBy(src, v, next, t, c);
    ExactWeight(src, t, Zeros(), v);
    forall k | N <= k < W.BITS * WORDS ensures !W.BitOf(v, k) {
      assert k !in SetBitsOf(v);
    }
  }

  /** The stream determines the vectors, so that drawing again from the same seed gives them back. */
  lemma {:induction false} DrewOnce(f: State -> State, u: Running, ws: seq<nat>, vs: seq<Ring.Vec>, vs': seq<Ring.Vec>)
    requires Drew(f, u, ws, vs) && Drew(f, u, ws, vs')
    ensures vs == vs'
    decreases |ws|
  {
    hide Weighted;
    if ws != [] {
      var next :| Weighted(f, u, ws[0], vs[0], next) && Drew(f, next, ws[1..], vs[1..]);
      var next' :| Weighted(f, u, ws[0], vs'[0], next') && Drew(f, next', ws[1..], vs'[1..]);
      WeightedOnce(f, u, ws[0], vs[0], next, vs'[0], next');
      DrewOnce(f, next, ws[1..], vs[1..], vs'[1..]);
      assert vs == [vs[0]] + vs[1..] && vs' == [vs'[0]] + vs'[1..];
    }
  }

  lemma WeightedOnce(f: State -> State, u: Running, w: nat, v: Ring.Vec, next: Running, v': Ring.Vec, next': Running)
    requires Weighted(f, u, w, v, next) && Weighted(f, u, w, v', next')
    ensures v == v' && next == next'
  {
    hide Support, AfterChunks, W.BitOf;
    var src := Source(f, u, w);
    var t: nat, c: nat :| WeightedBy(src, v, next, t, c);
    var t': nat, c': nat :| WeightedBy(src, v', next', t', c');
    assert |Support(src, t)| == w && |Support(src, t')| == w;
    assert t == t';
    SameChunks(t, w, c, c');
    Ring.SameBits(v, v');
  }

  lemma SameChunks(t: nat, w: nat, c: nat, d: nat)
    requires c * w - w < t <= c * w && d * w - w < t <= d * w
    ensures c == d
  {
    var r, r' := c * w - t, d * w - t;
    var a := c * w + r';
    Quotient(a, w, c, r');
    Quotient(a, w, d, r);
  }

  /** The stream u holds enough positions for every vector in turn, by these numbers of draws. */
  ghost predicate Plenty(f: State -> State, u: Running, ws: seq<nat>, limits: seq<nat>)
    decreases |ws|
  {
    && |limits| == |ws|
    && (ws != [] ==>
          && Good(Source(f, u, ws[0])) && |Support(Source(f, u, ws[0]), limits[0])| >= ws[0]
          && forall v, next :: Weighted(f, u, ws[0], v, next) ==> Plenty(f, next, ws[1..], limits[1..]))
  }

  /** A plentiful stream yields vectors of all the weights. */
  lemma {:induction false} DrewExists(f: State -> State, u: Running, ws: seq<nat>, limits: seq<nat>) returns (vs: seq<Ring.Vec>)
    requires Plenty(f, u, ws, limits)
    ensures Drew(f, u, ws, vs)
    decreases |ws|
  {
    hide Weighted, Support;
    if ws == [] {
      vs := [];
    } else {
      var v, next := WeightedExists(f, u, ws[0], limits[0]);
      var rest := DrewExists(f, next, ws[1..], limits[1..]);
      DrewMore(f, u, ws[0], ws[1..], v, rest, next);
      assert ws == [ws[0]] + ws[1..];
      vs := [v] + rest;
    }
  }

  lemma WeightedExists(f: State -> State, u: Running, w: nat, limit: nat) returns (v: Ring.Vec, next: Running)
    requires Good(Source(f, u, w)) && |Support(Source(f, u, w), limit)| >= w
    ensures Weighted(f, u, w, v, next)
  {
    hide Support, FirstEnough, AfterChunks;
    var src := Source(f, u, w);
    EnoughDraws(src, limit);
    var t: nat, c: nat :| t <= limit && FirstEnough(src, t, c);
    SupportSmall(src, t);
    v, next := Indicator(Support(src, t)), AfterChunks(src, c);
    IndicatorMarks(Support(src, t));
    assert WeightedBy(src, v, next, t, c);
  }

  /** The vector with exactly these bits. */
  function Indicator(s: seq<nat>): (v: Ring.Vec) { Ring.Vector((k: int) => k in s) }

  lemma IndicatorMarks(s: seq<nat>)
    requires forall k :: 0 <= k < |s| ==> s[k] < N
    ensures Marked(Zeros(), Indicator(s), s)
  {
    hide W.BitOf;
    forall p: nat
      ensures W.BitOf(Indicator(s), p) <==> W.BitOf(Zeros(), p) || (p < 64 * WORDS && p in s)
    {
      Ring.VectorBit((k: int) => k in s, p);
      ZerosBit(p);
    }
  }

  lemma ZerosBit(p: nat)
    ensures !W.BitOf(Zeros(), p)
  {}

  /** One draw into a vector of zeros. */
  method DrawVector(state: Incremental, f: State -> State, v: array<W.Word>, ghost ws: seq<nat>, w: nat, ghost limits: seq<nat>)
    requires state.Valid(Shake(f)) && v.Length == WORDS && v[..] == Zeros()
    requires ws != [] && ws[0] == w && Plenty(f, state.View(), ws, limits)
    modifies state`count, state.s, v
    ensures state.Valid(Shake(f)) && Weighted(f, old(state.View()), w, v[..], state.View()) && |limits| == |ws|
    ensures Plenty(f, state.View(), ws[1..], limits[1..])
  {
    hide Support, Marked, AfterChunks, FirstEnough;
    ghost var u := state.View();
    ghost var t, c := SetRandomFixedWeight(state, f, v, w, limits[0]);
    assert WeightedBy(Source(f, u, w), v[..], state.View(), t, c);
  }

  /** The secret vectors x and y of a key, from its seed. */
  method SampleSecrets(state: Incremental, f: State -> State, seed: array<Octet>, x: array<W.Word>, y: array<W.Word>, ghost limits: seq<nat>)
    requires state.s.Length == 200 && seed != state.s && seed.Length == SEED_BYTES && x != y
    requires x.Length == y.Length == WORDS && x[..] == Zeros() && y[..] == Zeros()
    requires Plenty(f, Seeded(f, seed[..]), [OMEGA, OMEGA], limits)
    modifies state`count, state.s, x, y
    ensures state.Valid(Shake(f)) && Drew(f, Seeded(f, old(seed[..])), [OMEGA, OMEGA], [x[..], y[..]])
  {
    hide Plenty, Weighted, Zeros, Hashed;
    assert seed[..SEED_BYTES] == seed[..];
    SeedExpanderInit(state, f, seed, SEED_BYTES);
    ghost var u := state.View();
    DrawVector(state, f, x, [OMEGA, OMEGA], OMEGA, limits);
    ghost var mid := state.View();
    assert [OMEGA, OMEGA][1..] == [OMEGA];
    DrawVector(state, f, y, [OMEGA], OMEGA, limits[1..]);
    DrewNone(f, state.View());
    DrewMore(f, mid, OMEGA, [], y[..], [], state.View());
    assert [OMEGA] + [] == [OMEGA] && [OMEGA] + [OMEGA] == [OMEGA, OMEGA] && [y[..]] + [] == [y[..]] && [x[..]] + [y[..]] == [x[..], y[..]];
    DrewMore(f, u, OMEGA, [OMEGA], x[..], [y[..]], mid);
  }

  /** The stream that a seed starts. */
  function Seeded(f: State -> State, seed: seq<Octet>): (u: Running) {
    Hashed(f, seed + [SEEDEXPANDER_DOMAIN])
  }

  lemma DrewLength(f: State -> State, u: Running, ws: seq<nat>, vs: seq<Ring.Vec>)
    requires Drew(f, u, ws, vs)
    ensures |vs| == |ws|
  {}

  lemma DrewNone(f: State -> State, u: Running)
    ensures Drew(f, u, [], [])
  {}

  lemma DrewMore(f: State -> State, u: Running, w: nat, ws: seq<nat>, v: Ring.Vec, vs: seq<Ring.Vec>, next: Running)
    requires Weighted(f, u, w, v, next) && Drew(f, next, ws, vs)
    ensures Drew(f, u, [w] + ws, [v] + vs)
  {
    hide Weighted;
    assert ([w] + ws)[1..] == ws && ([v] + vs)[1..] == vs;
  }

  /** The vectors r1, r2 and e of an encryption, from the first bytes of theta. */
  method SampleRandomness(state: Incremental, f: State -> State, theta: array<Octet>, r1: array<W.Word>, r2: array<W.Word>, e: array<W.Word>,
                          ghost limits: seq<nat>)
    requires state.s.Length == 200 && theta != state.s && theta.Length >= SEED_BYTES && r1 != r2 && r1 != e && r2 != e
    requires r1.Length == r2.Length == e.Length == WORDS && r1[..] == Zeros() && r2[..] == Zeros() && e[..] == Zeros()
    requires Plenty(f, Seeded(f, theta[..SEED_BYTES]), [OMEGA_R, OMEGA_R, OMEGA_E], limits)
    modifies state`count, state.s, r1, r2, e
    ensures state.Valid(Shake(f))
    ensures Drew(f, Seeded(f, old(theta[..SEED_BYTES])), [OMEGA_R, OMEGA_R, OMEGA_E], [r1[..], r2[..], e[..]])
  {
    hide Plenty, Weighted, Zeros, Hashed;
    SeedExpanderInit(state, f, theta, SEED_BYTES);
    ghost var u := state.View();
    DrawVector(state, f, r1, [OMEGA_R, OMEGA_R, OMEGA_E], OMEGA_R, limits);
    ghost var u1 := state.View();
    assert [OMEGA_R, OMEGA_R, OMEGA_E][1..] == [OMEGA_R, OMEGA_E];
    DrawVector(state, f, r2, [OMEGA_R, OMEGA_E], OMEGA_R, limits[1..]);
    ghost var u2 := state.View();
    assert [OMEGA_R, OMEGA_E][1..] == [OMEGA_E];
    DrawVector(state, f, e, [OMEGA_E], OMEGA_E, limits[1..][1..]);
    DrewNone(f, state.View());
    DrewMore(f, u2, OMEGA_E, [], e[..], [], state.View());
    assert [OMEGA_E] + [] == [OMEGA_E] && [e[..]] + [] == [e[..]];
    DrewMore(f, u1, OMEGA_R, [OMEGA_E], r2[..], [e[..]], u2);
    assert [OMEGA_R] + [OMEGA_E] == [OMEGA_R, OMEGA_E] && [r2[..]] + [e[..]] == [r2[..], e[..]];
    assert [OMEGA_R] + [OMEGA_R, OMEGA_E] == [OMEGA_R, OMEGA_R, OMEGA_E] && [r1[..]] + [r2[..], e[..]] == [r1[..], r2[..], e[..]];
    DrewMore(f, u, OMEGA_R, [OMEGA_R, OMEGA_E], r1[..], [r2[..], e[..]], u1);
  }

  /** The public vector h, from its seed. */
  method SamplePublic(state: Incremental, f: State -> State, seed: array<Octet>, h: array<W.Word>)
    requires state.s.Length == 200 && seed != state.s && seed.Length == SEED_BYTES && h.Length == WORDS
    modifies state`count, state.s, h
    ensures state.Valid(Shake(f)) && h[..] == PublicVector(f, old(seed[..]))
  {
    hide Hashed, Output, RandomVector;
    assert seed[..SEED_BYTES] == seed[..];
    SeedExpanderInit(state, f, seed, SEED_BYTES);
    SetRandom(state, f, h);
  }

  function PublicVector(f: State -> State, seed: seq<Octet>): (h: Ring.Vec) {
    RandomVector(Output(Shake(f), Seeded(f, seed), Ring.VECTOR_BYTES))
  }
}
