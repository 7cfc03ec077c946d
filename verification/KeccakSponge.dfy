/** The Keccak sponge functions on their state in place, proved against the byte form and the sponge construction,
    and the SHAKE-256 users of the key encapsulation on top of them. */
module KeccakSponge {
  import opened Octets
  import opened Sponge

  /** KeccakF1600_StatePermute for a given permutation. */
  method Permute(s: array<Octet>, f: State -> State)
    requires s.Length == 200
    modifies s
    ensures s[..] == f(old(s[..]))
  {
    var t := f(s[..]);
    for i := 0 to 200
      invariant s[..i] == t[..i]
    {
      s[i] := t[i];
    }
    assert s[..] == s[..200] == t[..200] == t;
  }

  /** The bytes b[q..q + n] are added to the state from byte c on. */
  method XorInto(s: array<Octet>, c: nat, b: array<Octet>, q: nat, n: nat)
    requires s.Length == 200 && c + n <= 200 && q + n <= b.Length && b != s
    modifies s
    ensures s[..] == XorRun(old(s[..]), c, b[q..q + n])
  {
    hide Xor;
    for i := 0 to n
      invariant forall k :: 0 <= k < 200 ==> s[k] == if c <= k < c + i then Xor(old(s[k]), b[q + (k - c)]) else old(s[k])
    {
      s[c + i] := Xor(s[c + i], b[q + i]);
    }
  }

  /** The bytes s[c..c + n] are copied to h from byte q on. */
  method CopyOut(h: array<Octet>, q: nat, s: array<Octet>, c: nat, n: nat)
    requires q + n <= h.Length && c + n <= s.Length && h != s
    modifies h
    ensures h[..q + n] == old(h[..q]) + s[c..c + n]
    ensures forall k :: q + n <= k < h.Length ==> h[k] == old(h[k])
  {
    for i := 0 to n
      invariant forall k :: 0 <= k < h.Length ==> h[k] == if q <= k < q + i then s[c + (k - q)] else old(h[k])
    {
      h[q + i] := s[c + i];
    }
  }

  // ---- the one-shot interface ----

  lemma BlockStep(m: Mode, s: State, message: seq<Octet>, q: nat)
    requires Rate(m.r) && q + m.r <= |message|
    ensures AbsorbBlocks(m, s, message[q..]) == AbsorbBlocks(m, m.f(XorRun(s, 0, message[q..q + m.r])), message[q + m.r..])
    ensures Tail(message[q..], m.r) == Tail(message[q + m.r..], m.r)
  {
    hide XorRun;
    var rest := message[q..];
    assert rest[..m.r] == message[q..q + m.r] && rest[m.r..] == message[q + m.r..];
  }

  lemma OrZero()
    ensures Octet(NULL.v | 128) == FINAL
  {}

  /** The last block as keccak_absorb builds it is the tail with its padding. */
  lemma LastBlock(tail: seq<Octet>, p: Octet, r: nat, t: seq<Octet>)
    requires |tail| < r && |t| == r
    requires var u := (tail + seq(r - |tail|, i => NULL))[|tail| := p]; t == u[r - 1 := Octet(u[r - 1].v | 128)]
    ensures t == tail + Padding(p, r - |tail|)
  {
    OrZero();
  }

  /** keccak_absorb: all but the last permutation of absorbing the padded message. */
  method KeccakAbsorb(s: array<Octet>, m: Mode, message: array<Octet>, p: Octet)
    requires s.Length == 200 && Rate(m.r) && message != s
    modifies s
    ensures m.f(s[..]) == AbsorbBlocks(m, Zero(), Padded(m, message[..], p))
  {
    hide XorRun, AbsorbBlocks, Xor, Padding, Tail;
    for i := 0 to 200
      invariant forall k :: 0 <= k < i ==> s[k] == NULL
    {
      s[i] := NULL;
    }
    var q, mlen := 0, message.Length;
    assert s[..] == Zero() && message[0..] == message[..];
    while mlen >= m.r
      invariant 0 <= mlen && q + mlen == message.Length
      invariant AbsorbBlocks(m, s[..], message[q..]) == AbsorbBlocks(m, Zero(), message[..])
      invariant Tail(message[q..], m.r) == Tail(message[..], m.r)
    {
      BlockStep(m, s[..], message[..], q);
      XorInto(s, 0, message, q, m.r);
      Permute(s, m.f);
      mlen := mlen - m.r;
      q := q + m.r;
    }
    ghost var tail := message[q..];
    ShortMessage(m, s[..], tail);
    var t := BuildLast(message, q, m.r, p);
    assert t[0..m.r] == t[..];
    XorInto(s, 0, t, 0, m.r);
    TailLength(message[..], m.r);
    PaddedBlocks(m, Zero(), message[..], Padding(p, m.r - |tail|));
  }

  lemma ShortMessage(m: Mode, s: State, message: seq<Octet>)
    requires Rate(m.r) && |message| < m.r
    ensures AbsorbBlocks(m, s, message) == s && Tail(message, m.r) == message
  {}

  /** The block t of keccak_absorb. */
  method BuildLast(message: array<Octet>, q: nat, r: nat, p: Octet) returns (t: array<Octet>)
    requires q <= message.Length < q + r
    ensures fresh(t) && t.Length == r && t[..] == message[q..] + Padding(p, r - (message.Length - q))
  {
    var mlen := message.Length - q;
    t := new Octet[r](_ => NULL);
    for i := 0 to mlen
      invariant forall k :: 0 <= k < r ==> t[k] == if k < i then message[q + k] else NULL
    {
      t[i] := message[q + i];
    }
    assert t[..] == message[q..] + seq(r - mlen, i => NULL);
    t[mlen] := p;
    t[r - 1] := Octet(t[r - 1].v | 128);
    LastBlock(message[q..], p, r, t[..]);
  }

  /** The state after n more permutations. */
  function Permuted(m: Mode, s: State, n: nat): State
    decreases n
  {
    if n == 0 then s else Permuted(m, m.f(s), n - 1)
  }

  /** The state is permuted and its first n bytes are copied out. */
  method PermuteOut(h: array<Octet>, q: nat, s: array<Octet>, m: Mode, n: nat)
    requires s.Length == 200 && h != s && n <= 200 && q + n <= h.Length
    modifies h, s
    ensures s[..] == m.f(old(s[..]))
    ensures h[..q + n] == old(h[..q]) + m.f(old(s[..]))[..n]
    ensures forall k :: q + n <= k < h.Length ==> h[k] == old(h[k])
  {
    Permute(s, m.f);
    CopyOut(h, q, s, 0, n);
    assert s[0..n] == s[..][..n];
  }

  /** keccak_squeezeblocks: the state is permuted before each block of output. */
  method SqueezeBlocksInto(h: array<Octet>, q: nat, blocks: nat, s: array<Octet>, m: Mode)
    requires s.Length == 200 && Rate(m.r) && h != s && q + blocks * m.r <= h.Length
    modifies h, s
    ensures s[..] == Permuted(m, old(s[..]), blocks)
    ensures h[..q + blocks * m.r] == old(h[..q]) + SqueezeBlocks(m, m.f(old(s[..])), blocks * m.r)
    ensures forall k :: q + blocks * m.r <= k < h.Length ==> h[k] == old(h[k])
  {
    hide SqueezeBlocks;
    var at, n := q, blocks;
    ghost var start, before := s[..], h[..q];
    while n > 0
      invariant 0 <= n <= blocks
      invariant at == q + (blocks - n) * m.r
      invariant Permuted(m, s[..], n) == Permuted(m, start, blocks)
      invariant h[..at] + SqueezeBlocks(m, m.f(s[..]), n * m.r) == before + SqueezeBlocks(m, m.f(start), blocks * m.r)
      invariant forall k :: at <= k < h.Length ==> h[k] == old(h[k])
    {
      Distribute(blocks, n, m.r);
      SqueezeStep(m, m.f(s[..]), n * m.r);
      PermuteOut(h, at, s, m, m.r);
      at := at + m.r;
      n := n - 1;
    }
    EmptySqueeze(m, m.f(s[..]));
  }

  lemma Distribute(blocks: nat, n: nat, r: nat)
    requires 1 <= n <= blocks
    ensures (blocks - (n - 1)) * r == (blocks - n) * r + r && (n - 1) * r == n * r - r
    ensures (blocks - n) * r + r <= blocks * r && n * r >= r
  {
    assert (blocks - n + 1) * r <= blocks * r;
    assert (n - 1) * r >= 0;
  }

  lemma SqueezeStep(m: Mode, s: State, n: nat)
    requires Rate(m.r) && n >= m.r
    ensures SqueezeBlocks(m, s, n) == s[..m.r] + SqueezeBlocks(m, m.f(s), n - m.r)
  {
    if n == m.r {
      EmptySqueeze(m, m.f(s));
    }
  }

  lemma EmptySqueeze(m: Mode, s: State)
    requires Rate(m.r)
    ensures SqueezeBlocks(m, s, 0) == []
  {}

  lemma {:induction false} PermutedNext(m: Mode, s: State, n: nat)
    ensures Permuted(m, m.f(s), n) == m.f(Permuted(m, s, n))
    decreases n
  {
    if n > 0 {
      PermutedNext(m, m.f(s), n - 1);
    }
  }

  lemma {:induction false} SqueezeSplit(m: Mode, s: State, blocks: nat, n: nat)
    requires Rate(m.r)
    ensures SqueezeBlocks(m, s, blocks * m.r + n) == SqueezeBlocks(m, s, blocks * m.r) + SqueezeBlocks(m, Permuted(m, s, blocks), n)
    decreases blocks
  {
    hide SqueezeBlocks;
    if blocks == 0 {
      EmptySqueeze(m, s);
    } else {
      Distribute(blocks, blocks, m.r);
      SqueezeStep(m, s, blocks * m.r + n);
      SqueezeStep(m, s, blocks * m.r);
      SqueezeSplit(m, m.f(s), blocks - 1, n);
      assert blocks * m.r + n - m.r == (blocks - 1) * m.r + n;
      var rest := SqueezeBlocks(m, Permuted(m, s, blocks), n);
      assert s[..m.r] + (SqueezeBlocks(m, m.f(s), (blocks - 1) * m.r) + rest) == s[..m.r] + SqueezeBlocks(m, m.f(s), (blocks - 1) * m.r) + rest;
    }
  }

  const SHAKE_RATE := 136
  const SHAKE_DOMAIN := Octet(0x1F)

  function Shake(f: State -> State): (m: Mode)
    ensures Rate(m.r)
  {
    Mode(f, SHAKE_RATE)
  }

  /** SHAKE256 of FIPS 202, section 6.2. */
  function Shake256(f: State -> State, message: seq<Octet>, n: nat): (out: seq<Octet>)
    ensures |out| == n
  {
    Hash(Shake(f), message, SHAKE_DOMAIN, n)
  }

  /** Bit by bit, lowest first, the domain byte is the suffix 1111 and the first bit of the padding, and the byte that ends
      the padding is its last bit; the capacity is twice 256 bits (sections 6.2 and 5.1 of FIPS 202). */
  lemma ShakeParameters(f: State -> State, k: nat)
    requires k < 8
    ensures (SHAKE_DOMAIN.v >> k) & 1 == (if k < 5 then 1 else 0) && (FINAL.v >> k) & 1 == (if k == 7 then 1 else 0)
    ensures 8 * Shake(f).r == 1600 - 2 * 256
  {}

  /** shake256: the one-shot function. */
  method OneShot(output: array<Octet>, outlen: nat, input: array<Octet>, f: State -> State)
    requires outlen <= output.Length && output != input
    modifies output
    ensures output[..outlen] == Shake256(f, old(input[..]), outlen)
    ensures output[outlen..] == old(output[outlen..])
  {
    hide SqueezeBlocks, AbsorbBlocks, Padded, Permuted;
    var m := Shake(f);
    var blocks, rest := outlen / 136, outlen % 136;
    assert blocks * m.r + rest == outlen;
    var s := new Octet[200](_ => NULL);
    KeccakAbsorb(s, m, input, SHAKE_DOMAIN);
    ghost var start := s[..];
    SqueezeSplit(m, f(start), blocks, rest);
    PermutedNext(m, start, blocks);
    SqueezeBlocksInto(output, 0, blocks, s, m);
    assert output[..0] == [];
    if rest != 0 {
      LastOutput(output, blocks * m.r, s, m, rest);
    } else {
      EmptySqueeze(m, Permuted(m, f(start), blocks));
    }
  }

  /** The rest of the output, by way of a whole block. */
  method LastOutput(output: array<Octet>, q: nat, s: array<Octet>, m: Mode, n: nat)
    requires s.Length == 200 && Rate(m.r) && output != s && n <= m.r && q + n <= output.Length
    modifies output, s
    ensures output[..q + n] == old(output[..q]) + SqueezeBlocks(m, m.f(old(s[..])), n)
    ensures forall k :: q + n <= k < output.Length ==> output[k] == old(output[k])
  {
    hide SqueezeBlocks;
    var t := new Octet[m.r](_ => NULL);
    FirstBlock(m, m.f(s[..]), n);
    assert 1 * m.r == m.r;
    SqueezeBlocksInto(t, 0, 1, s, m);
    ghost var block := t[..];
    assert t[..m.r] == block;
    assert t[0..n] == block[..n];
    CopyOut(output, q, t, 0, n);
  }

  lemma FirstBlock(m: Mode, s: State, n: nat)
    requires Rate(m.r) && n <= m.r
    ensures SqueezeBlocks(m, s, m.r)[..n] == SqueezeBlocks(m, s, n)
  {}

  // ---- the incremental interface ----

  /** keccak_inc: the state and the counter s_inc[25], which counts absorbed bytes not yet permuted
      while absorbing and bytes not yet given out while squeezing. */
  class Incremental {
    const s: array<Octet>
    var count: nat

    ghost predicate Valid(m: Mode)
      reads this
    {
      s.Length == 200 && Rate(m.r) && count < m.r
    }

    ghost function View(): Running
      requires s.Length == 200
      reads this, s
    {
      Running(s[..], count)
    }

    constructor ()
      ensures fresh(s) && s.Length == 200 && View() == Running(Zero(), 0)
    {
      s := new Octet[200](_ => NULL);
      count := 0;
    }

    /** keccak_inc_init. */
    method Init()
      requires s.Length == 200
      modifies this`count, s
      ensures View() == Running(Zero(), 0)
    {
      for i := 0 to 200
        invariant forall k :: 0 <= k < i ==> s[k] == NULL
      {
        s[i] := NULL;
      }
      count := 0;
    }

    /** keccak_inc_absorb. */
    method AbsorbBytes(m: Mode, input: array<Octet>, length: nat)
      requires Valid(m) && input != s && length <= input.Length
      modifies this`count, s
      ensures Valid(m) && View() == Absorb(m, old(View()), input[..length])
    {
      hide Absorb, XorRun;
      ghost var u, all := View(), input[..length];
      var q, mlen := 0, length;
      assert all[0..] == all;
      while mlen + count >= m.r
        invariant 0 <= mlen && q + mlen == length && Valid(m)
        invariant Absorb(m, View(), all[q..]) == Absorb(m, u, all)
        decreases mlen
      {
        var n := m.r - count;
        AbsorbRun(m, View(), all[q..q + n]);
        AbsorbChunks(m, View(), all[q..q + n], all[q + n..]);
        assert all[q..q + n] + all[q + n..] == all[q..] && all[q..q + n] == input[q..q + n];
        XorInto(s, count, input, q, n);
        mlen := mlen - n;
        q := q + n;
        count := 0;
        Permute(s, m.f);
      }
      AbsorbRun(m, View(), all[q..]);
      assert all[q..] == input[q..q + mlen];
      XorInto(s, count, input, q, mlen);
      count := count + mlen;
    }

    /** keccak_inc_finalize. */
    method FinalizeWith(m: Mode, p: Octet)
      requires Valid(m)
      modifies this`count, s
      ensures Valid(m) && View() == Finalize(m, old(View()), p)
    {
      hide Xor;
      s[count] := Xor(s[count], p);
      assert s[..] == XorRun(old(s[..]), count, [p]);
      ghost var t := s[..];
      s[m.r - 1] := Xor(s[m.r - 1], FINAL);
      assert s[..] == XorRun(t, m.r - 1, [FINAL]);
      count := 0;
    }

    /** keccak_inc_squeeze. */
    method Squeeze(m: Mode, h: array<Octet>, length: nat)
      requires Valid(m) && h != s && length <= h.Length
      modifies this`count, s, h
      ensures Valid(m) && View() == AfterSqueeze(m, old(View()), length)
      ensures h[..length] == Output(m, old(View()), length)
      ensures h[length..] == old(h[length..])
    {
      hide Output, AfterSqueeze;
      ghost var u := View();
      var i := if length < count then length else count;
      CopyOut(h, 0, s, m.r - count, i);
      SqueezeRun(m, u, i);
      var q, left := i, length - i;
      count := count - i;
      while left > 0
        invariant 0 <= left && q + left == length && Valid(m)
        invariant left > 0 ==> count == 0
        invariant View() == AfterSqueeze(m, u, q)
        invariant h[..q] == Output(m, u, q)
        invariant forall k :: q <= k < h.Length ==> h[k] == old(h[k])
        decreases left
      {
        var n := if left < m.r then left else m.r;
        SqueezeNext(m, h, q, n, u);
        q, left := q + n, left - n;
      }
    }

    /** The next n bytes of the stream u when the block is used up: the state is permuted first. */
    method SqueezeNext(m: Mode, h: array<Octet>, q: nat, n: nat, ghost u: Running)
      requires Valid(m) && count == 0 && Ready(m, u) && h != s && 1 <= n <= m.r && q + n <= h.Length
      requires View() == AfterSqueeze(m, u, q) && h[..q] == Output(m, u, q)
      modifies this`count, s, h
      ensures Valid(m) && count == m.r - n
      ensures View() == AfterSqueeze(m, u, q + n) && h[..q + n] == Output(m, u, q + n)
      ensures forall k :: q + n <= k < h.Length ==> h[k] == old(h[k])
    {
      hide Output, AfterSqueeze;
      SqueezeFresh(m, s[..], n);
      SqueezeChunks(m, u, q, n);
      PermuteOut(h, q, s, m, n);
      count := m.r - n;
    }
  }
}
