/** The sponge of FIPS 202 over an abstract permutation: a byte-at-a-time form, which is what the incremental
    functions compute, and the padded-block form of section 4, which the byte form is proved to equal. */
module Sponge {
  import opened Octets
  import opened Remainders

  /** The 1600-bit state as 200 bytes; lane i is bytes 8i .. 8i + 7, least significant first. */
  type State = s: seq<Octet> | |s| == 200 witness seq(200, i => NULL)

  /** A permutation of the state, with the rate in bytes. */
  datatype Mode = Mode(f: State -> State, r: nat)

  predicate Rate(r: nat) {
    8 <= r <= 200 && r % 8 == 0
  }

  function Zero(): State {
    seq(200, i => NULL)
  }

  /** The run b added to the state from byte c on. */
  function XorRun(s: State, c: nat, b: seq<Octet>): State {
    seq(200, k requires 0 <= k < 200 => if c <= k < c + |b| then Xor(s[k], b[k - c]) else s[k])
  }

  // ---- one byte at a time ----

  /** The incremental state: s_inc[0..25] and the counter s_inc[25]. */
  datatype Running = Running(s: State, c: nat)

  ghost predicate Ready(m: Mode, u: Running) {
    Rate(m.r) && u.c < m.r
  }

  function AbsorbByte(m: Mode, u: Running, b: Octet): (v: Running) {
    var t := XorRun(u.s, u.c, [b]);
    if u.c + 1 == m.r then Running(m.f(t), 0) else Running(t, u.c + 1)
  }

  function Absorb(m: Mode, u: Running, bytes: seq<Octet>): Running {
    if bytes == [] then u else AbsorbByte(m, Absorb(m, u, bytes[..|bytes| - 1]), bytes[|bytes| - 1])
  }

  const FINAL := Octet(128)

  /** keccak_inc_finalize: the domain byte after the message, the final bit at the end of the block. */
  function Finalize(m: Mode, u: Running, p: Octet): Running
    requires Rate(m.r)
  {
    Running(XorRun(XorRun(u.s, u.c, [p]), m.r - 1, [FINAL]), 0)
  }

  /** The state out of which the next byte comes: permuted first when no byte is left in the block. */
  function Refilled(m: Mode, u: Running): Running {
    if u.c == 0 then Running(m.f(u.s), m.r) else u
  }

  function NextByte(m: Mode, u: Running): Octet
    requires Ready(m, u)
  {
    var v := Refilled(m, u);
    v.s[m.r - v.c]
  }

  function AfterByte(m: Mode, u: Running): (v: Running)
    requires Ready(m, u)
    ensures Ready(m, v)
  {
    var v := Refilled(m, u);
    Running(v.s, v.c - 1)
  }

  function AfterSqueeze(m: Mode, u: Running, n: nat): (v: Running)
    requires Ready(m, u)
    ensures Ready(m, v)
  {
    if n == 0 then u else AfterByte(m, AfterSqueeze(m, u, n - 1))
  }

  function Output(m: Mode, u: Running, n: nat): (out: seq<Octet>)
    requires Ready(m, u)
    ensures |out| == n
  {
    if n == 0 then [] else Output(m, u, n - 1) + [NextByte(m, AfterSqueeze(m, u, n - 1))]
  }

  // ---- chunking ----

  /** After absorbing, at least one byte of the block is still free. */
  lemma {:induction false} AbsorbReady(m: Mode, u: Running, bytes: seq<Octet>)
    requires Ready(m, u)
    ensures Ready(m, Absorb(m, u, bytes))
  {
    hide XorRun;
    if bytes != [] {
      AbsorbReady(m, u, bytes[..|bytes| - 1]);
    }
  }

  /** Absorbing in two calls is absorbing the concatenation. */
  lemma {:induction false} AbsorbChunks(m: Mode, u: Running, a: seq<Octet>, b: seq<Octet>)
    ensures Absorb(m, Absorb(m, u, a), b) == Absorb(m, u, a + b)
    decreases |b|
  {
    hide AbsorbByte;
    if b == [] {
      assert a + b == a;
    } else {
      var n := |b| - 1;
      AbsorbChunks(m, u, a, b[..n]);
      assert (a + b)[..|a + b| - 1] == a + b[..n] && (a + b)[|a + b| - 1] == b[n];
    }
  }

  /** Squeezing in two calls gives the same bytes and the same state as squeezing once. */
  lemma {:induction false} SqueezeChunks(m: Mode, u: Running, a: nat, b: nat)
    requires Ready(m, u)
    ensures AfterSqueeze(m, AfterSqueeze(m, u, a), b) == AfterSqueeze(m, u, a + b)
    ensures Output(m, u, a) + Output(m, AfterSqueeze(m, u, a), b) == Output(m, u, a + b)
  {
    hide NextByte, AfterByte, Refilled;
    if b > 0 {
      SqueezeChunks(m, u, a, b - 1);
      var v := AfterSqueeze(m, u, a);
      var last := [NextByte(m, AfterSqueeze(m, v, b - 1))];
      assert Output(m, u, a) + (Output(m, v, b - 1) + last) == Output(m, u, a) + Output(m, v, b - 1) + last;
    }
  }

  // ---- runs within one block ----

  lemma XorRunEmpty(s: State, c: nat)
    ensures XorRun(s, c, []) == s
  {}

  lemma XorRunMore(s: State, c: nat, b: seq<Octet>, x: Octet)
    ensures XorRun(XorRun(s, c, b), c + |b|, [x]) == XorRun(s, c, b + [x])
  {
    hide Xor;
  }

  /** A run that ends inside the block is added to the state; one that ends with the block is permuted. */
  lemma {:induction false} AbsorbRun(m: Mode, u: Running, bytes: seq<Octet>)
    requires Ready(m, u) && u.c + |bytes| <= m.r
    ensures u.c + |bytes| < m.r ==> Absorb(m, u, bytes) == Running(XorRun(u.s, u.c, bytes), u.c + |bytes|)
    ensures u.c + |bytes| == m.r ==> Absorb(m, u, bytes) == Running(m.f(XorRun(u.s, u.c, bytes)), 0)
  {
    hide XorRun;
    if bytes == [] {
      XorRunEmpty(u.s, u.c);
    } else {
      var n := |bytes| - 1;
      AbsorbRun(m, u, bytes[..n]);
      XorRunMore(u.s, u.c, bytes[..n], bytes[n]);
      assert bytes[..n] + [bytes[n]] == bytes;
    }
  }

  /** Bytes that are left in the block come out in order. */
  lemma {:induction false} SqueezeRun(m: Mode, u: Running, n: nat)
    requires Ready(m, u) && n <= u.c
    ensures AfterSqueeze(m, u, n) == Running(u.s, u.c - n)
    ensures Output(m, u, n) == u.s[m.r - u.c..m.r - u.c + n]
  {
    if n > 0 {
      SqueezeRun(m, u, n - 1);
    }
  }

  /** From an empty block, the state is permuted and its first bytes come out. */
  lemma {:induction false} SqueezeFresh(m: Mode, s: State, n: nat)
    requires Rate(m.r) && 1 <= n <= m.r
    ensures AfterSqueeze(m, Running(s, 0), n) == Running(m.f(s), m.r - n)
    ensures Output(m, Running(s, 0), n) == m.f(s)[..n]
  {
    var u := Running(s, 0);
    if n == 1 {
      assert AfterSqueeze(m, u, 0) == u && Output(m, u, 0) == [];
    } else {
      SqueezeFresh(m, s, n - 1);
    }
  }

  // ---- the sponge construction of FIPS 202, section 4 ----

  /** Multi-rate padding with the domain bits (appendix B.2): q bytes that fill up the last block. */
  function Padding(p: Octet, q: nat): (b: seq<Octet>)
    requires q >= 1
    ensures |b| == q
  {
    if q == 1 then [Octet(p.v | 128)] else [p] + seq(q - 2, i => NULL) + [FINAL]
  }

  function Padded(m: Mode, message: seq<Octet>, p: Octet): (b: seq<Octet>)
    requires Rate(m.r)
  {
    message + Padding(p, m.r - |message| % m.r)
  }

  /** Every full block of the message added to the state and permuted. */
  function AbsorbBlocks(m: Mode, s: State, message: seq<Octet>): State
    requires Rate(m.r)
    decreases |message|
  {
    if |message| < m.r then s else AbsorbBlocks(m, m.f(XorRun(s, 0, message[..m.r])), message[m.r..])
  }

  /** Output blocks, one permutation apart. */
  function SqueezeBlocks(m: Mode, s: State, n: nat): (out: seq<Octet>)
    requires Rate(m.r)
    ensures |out| == n
    decreases n
  {
    if n <= m.r then s[..n] else s[..m.r] + SqueezeBlocks(m, m.f(s), n - m.r)
  }

  /** SPONGE[f, pad, r](message || suffix, n). */
  function Hash(m: Mode, message: seq<Octet>, p: Octet, n: nat): (out: seq<Octet>)
    requires Rate(m.r)
    ensures |out| == n
  {
    SqueezeBlocks(m, AbsorbBlocks(m, Zero(), Padded(m, message, p)), n)
  }

  /** What is left of the message after its full blocks. */
  function Tail(message: seq<Octet>, r: nat): (t: seq<Octet>)
    requires r >= 1
    ensures |t| < r
    decreases |message|
  {
    if |message| < r then message else Tail(message[r..], r)
  }

  /** Absorbing byte by byte is absorbing the full blocks and leaving the tail in the state. */
  lemma {:induction false} AbsorbIsBlocks(m: Mode, s: State, message: seq<Octet>)
    requires Rate(m.r)
    ensures Absorb(m, Running(s, 0), message)
      == Running(XorRun(AbsorbBlocks(m, s, message), 0, Tail(message, m.r)), |Tail(message, m.r)|)
    decreases |message|
  {
    hide XorRun;
    var u := Running(s, 0);
    if |message| < m.r {
      AbsorbRun(m, u, message);
    } else {
      var a, b := message[..m.r], message[m.r..];
      AbsorbRun(m, u, a);
      AbsorbChunks(m, u, a, b);
      assert a + b == message;
      AbsorbIsBlocks(m, m.f(XorRun(s, 0, a)), b);
    }
  }

  lemma {:induction false} TailLength(message: seq<Octet>, r: nat)
    requires r >= 1
    ensures |Tail(message, r)| == |message| % r
    decreases |message|
  {
    if |message| < r {
      assert |message| % r == |message|;
    } else {
      TailLength(message[r..], r);
      SubtractMod(|message|, r);
    }
  }

  /** The padded message is absorbed by absorbing the message and then one last block. */
  lemma {:induction false} PaddedBlocks(m: Mode, s: State, message: seq<Octet>, pad: seq<Octet>)
    requires Rate(m.r) && |Tail(message, m.r)| + |pad| == m.r
    ensures AbsorbBlocks(m, s, message + pad) == m.f(XorRun(AbsorbBlocks(m, s, message), 0, Tail(message, m.r) + pad))
    decreases |message|
  {
    hide XorRun;
    var all := message + pad;
    if |message| < m.r {
      assert all[..m.r] == all && all[m.r..] == [];
    } else {
      assert all[..m.r] == message[..m.r] && all[m.r..] == message[m.r..] + pad;
      PaddedBlocks(m, m.f(XorRun(s, 0, message[..m.r])), message[m.r..], pad);
    }
  }

  lemma OrIsXor(p: Octet)
    ensures Xor(p, FINAL) == Octet(p.v | 128) <==> p.v < 128
  {}

  lemma XorAssoc(a: Octet, b: Octet, c: Octet)
    ensures Xor(Xor(a, b), c) == Xor(a, Xor(b, c))
  {}

  lemma XorInjective(a: Octet, b: Octet, c: Octet)
    requires Xor(a, b) == Xor(a, c)
    ensures b == c
  {
    hide Xor;
    XorLaws(a, b);
    XorLaws(b, a);
    XorLaws(a, c);
    XorLaws(c, a);
  }

  /** Adding the domain byte and the final bit is adding the padding exactly when the two do not fall on one byte,
      or the domain byte has its top bit clear, as the SHAKE and SHA-3 bytes 0x1F and 0x06 have. */
  lemma FinalizeIsPadding(m: Mode, s: State, tail: seq<Octet>, p: Octet)
    requires Rate(m.r) && |tail| < m.r
    ensures Finalize(m, Running(XorRun(s, 0, tail), |tail|), p) == Running(XorRun(s, 0, tail + Padding(p, m.r - |tail|)), 0)
       <==> p.v < 128 || |tail| + 1 < m.r
  {
    hide Xor;
    var c, q := |tail|, m.r - |tail|;
    var t := XorRun(XorRun(XorRun(s, 0, tail), c, [p]), m.r - 1, [FINAL]);
    var w := XorRun(s, 0, tail + Padding(p, q));
    OrIsXor(p);
    if c + 1 < m.r {
      forall k | 0 <= k < 200 ensures t[k] == w[k] {
        XorLaws(s[k], NULL);
      }
    } else {
      XorAssoc(s[c], p, FINAL);
      assert t[c] == Xor(s[c], Xor(p, FINAL)) && w[c] == Xor(s[c], Octet(p.v | 128));
      assert forall k | 0 <= k < 200 :: k != c ==> t[k] == w[k];
      if t[c] == w[c] {
        XorInjective(s[c], Xor(p, FINAL), Octet(p.v | 128));
        assert t == w;
      }
    }
  }

  /** Squeezing byte by byte after finalizing is the squeezing phase of the sponge. */
  lemma {:induction false} OutputIsBlocks(m: Mode, s: State, n: nat)
    requires Rate(m.r)
    ensures Output(m, Running(s, 0), n) == SqueezeBlocks(m, m.f(s), n)
    decreases n
  {
    var u := Running(s, 0);
    if n == 0 {
    } else if n <= m.r {
      SqueezeFresh(m, s, n);
    } else {
      SqueezeFresh(m, s, m.r);
      SqueezeChunks(m, u, m.r, n - m.r);
      OutputIsBlocks(m, m.f(s), n - m.r);
    }
  }

  /** The incremental interface computes the sponge: for every message and every output length. */
  lemma IncrementalIsHash(m: Mode, message: seq<Octet>, p: Octet, n: nat)
    requires Rate(m.r)
    requires p.v < 128 || |message| % m.r + 1 < m.r
    ensures Output(m, Finalize(m, Absorb(m, Running(Zero(), 0), message), p), n) == Hash(m, message, p, n)
  {
    hide XorRun, Padding, Finalize, Output, SqueezeBlocks, AbsorbBlocks, Absorb, Tail;
    var tail := Tail(message, m.r);
    TailLength(message, m.r);
    AbsorbIsBlocks(m, Zero(), message);
    FinalizeIsPadding(m, AbsorbBlocks(m, Zero(), message), tail, p);
    PaddedBlocks(m, Zero(), message, Padding(p, m.r - |tail|));
    OutputIsBlocks(m, XorRun(AbsorbBlocks(m, Zero(), message), 0, tail + Padding(p, m.r - |tail|)), n);
  }
}
