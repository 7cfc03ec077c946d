/** The code of code.c on vectors of 64-bit words, which the Reed-Muller code reads as 32-bit words. */
module CodeVectors {
  import opened Gf256
  import opened Polynomials
  import opened Berlekamp
  import opened FieldTables
  import opened RootFinder
  import opened ReedSolomonEncoder
  import opened ReedMuller
  import opened ConcatenatedCode
  import Words32
  import W = Words64
  import H = Hadamard
  import Kem = HqcKem

  type Bytes = Kem.Bytes

  const COPIES := BYTES * MULTIPLICITY

  /** The bytes of a message as the symbols of the outer code. */
  function PolyOf(m: Bytes): (a: Poly)
    ensures |a| == |m|
  {
    seq(|m|, i requires 0 <= i < |m| => Elt(m[i]))
  }

  function BytesOf(a: Poly): (m: Bytes)
    ensures |m| == |a|
  {
    seq(|a|, i requires 0 <= i < |a| => a[i].v)
  }

  lemma BytesBack(m: Bytes)
    ensures BytesOf(PolyOf(m)) == m
  {}

  // ---- the words of a copy

  /** The low or the high half of a word. */
  function Half(w: W.Word, high: nat): Words32.Word
    requires high < 2
  {
    Words32.Packed(w[32 * high..32 * high + 32])
  }

  /** Copy q of the vector seen as an array of codewords. */
  function CopyOf(v: Kem.CodeVec, q: nat): Copy
    requires q < COPIES
  {
    [Half(v[2 * q], 0), Half(v[2 * q], 1), Half(v[2 * q + 1], 0), Half(v[2 * q + 1], 1)]
  }

  function Copies(v: Kem.CodeVec): (em: seq<Copy>)
    ensures |em| == COPIES
  {
    seq(COPIES, q requires 0 <= q < COPIES => CopyOf(v, q))
  }

  lemma HalfBit(w: W.Word, high: nat, i: nat)
    requires high < 2 && i < 32
    ensures Words32.WordBit(Half(w, high), i) == w[32 * high + i]
  {
    hide Words32.WordBit, Words32.Packed;
    Words32.PackedBit(w[32 * high..32 * high + 32], i);
  }

  /** Bit p of copy q is bit 128 * q + p of the vector. */
  lemma CopyBit(v: Kem.CodeVec, q: nat, p: nat)
    requires q < COPIES && p < H.N
    ensures BitAt(Copies(v)[q], p) == W.BitOf(v, H.N * q + p)
  {
    hide Words32.WordBit, Half;
    var i, part := p % 32, p / 32;
    HalfBit(v[2 * q + part / 2], part % 2, i);
    BitPlace(q, p);
  }

  lemma BitPlace(q: nat, p: nat)
    requires p < H.N
    ensures (H.N * q + p) / 64 == 2 * q + p / 32 / 2 && (H.N * q + p) % 64 == 32 * (p / 32 % 2) + p % 32
  {}

  // ---- code_encode and code_decode

  /** Two halves of a codeword as the words of the vector. */
  function WordAt(em: seq<Copy>, i: nat): (w: W.Word)
    requires i < 2 * |em|
  {
    seq(W.BITS, k requires 0 <= k < W.BITS => BitAt(em[i / 2], W.BITS * (i % 2) + k))
  }

  method EncodeVector(m: Bytes) returns (v: Kem.CodeVec)
    requires |m| == MESSAGE
    ensures Encodes(Copies(v), PolyOf(m))
  {
    hide BitAt, CodeBit, Index, Codeword, Copies;
    var em := CodeEncode(PolyOf(m));
    EncodesLength(em, PolyOf(m));
    v := seq(Kem.CODE_WORDS, i requires 0 <= i < Kem.CODE_WORDS => WordAt(em, i));
    forall q, p | 0 <= q < COPIES && 0 <= p < H.N
      ensures BitAt(Copies(v)[q], p) == BitAt(em[q], p)
    {
      CopyBit(v, q, p);
      BitPlace(q, p);
      WordPlace(q, p);
    }
  }

  lemma WordPlace(q: nat, p: nat)
    requires p < H.N
    ensures (2 * q + p / 32 / 2) / 2 == q && (2 * q + p / 32 / 2) % 2 == p / 64
    ensures W.BITS * (p / 64) + (32 * (p / 32 % 2) + p % 32) == p
  {}

  /** m is the message of 16 bytes whose code word is more than 95 bits away from w in at most 15 of the 46 blocks,
      if there is one. */
  ghost predicate Decodes(w: Kem.CodeVec, m: Bytes) {
    && |m| == MESSAGE
    && forall msg: Bytes :: |msg| == MESSAGE && BadBlocks(Copies(w), Codeword(PolyOf(msg)), LENGTH) <= DELTA ==> m == msg
  }

  /** code_decode with the tables of gf.h. */
  method DecodeVector(w: Kem.CodeVec) returns (m: Bytes)
    ensures Decodes(w, m)
  {
    hide BadBlocks, Codeword, Copies, LogTable, GfExp, GfLog;
    forall i | 0 <= i < 258 ensures GfExp()[i] == Alpha(i) { ExpTable(i); }
    LogTableRight();
    var a := CodeDecode(Copies(w), GfExp(), GfLog());
    m := BytesOf(a);
    forall msg: Bytes | |msg| == MESSAGE && BadBlocks(Copies(w), Codeword(PolyOf(msg)), LENGTH) <= DELTA
      ensures m == msg
    {
      BytesBack(msg);
    }
  }

  /** Such a message exists for every word: no two messages are that close. */
  ghost function Decoded(w: Kem.CodeVec): (m: Bytes)
    ensures Decodes(w, m)
  {
    if exists msg: Bytes :: |msg| == MESSAGE && BadBlocks(Copies(w), Codeword(PolyOf(msg)), LENGTH) <= DELTA then
      var msg: Bytes :| |msg| == MESSAGE && BadBlocks(Copies(w), Codeword(PolyOf(msg)), LENGTH) <= DELTA;
      OnlyDecoding(w, msg);
      msg
    else seq(MESSAGE, i => 0)
  }

  lemma OnlyDecoding(w: Kem.CodeVec, m: Bytes)
    requires |m| == MESSAGE && BadBlocks(Copies(w), Codeword(PolyOf(m)), LENGTH) <= DELTA
    ensures Decodes(w, m)
  {
    hide BadBlocks, Codeword, Copies;
    forall msg: Bytes | |msg| == MESSAGE && BadBlocks(Copies(w), Codeword(PolyOf(msg)), LENGTH) <= DELTA
      ensures m == msg
    {
      UniqueMessage(Copies(w), PolyOf(m), PolyOf(msg));
      BytesBack(m);
      BytesBack(msg);
    }
  }

  /** The code word of m, bit by bit; other lengths do not occur. */
  ghost function Encoded(m: Bytes): (v: Kem.CodeVec)
    ensures |m| == MESSAGE ==> Encodes(Copies(v), PolyOf(m))
  {
    if |m| != MESSAGE then seq(Kem.CODE_WORDS, i => W.Zero())
    else
      EncodedBits(PolyOf(m));
      CodeBits(PolyOf(m))
  }

  ghost function CodeBits(a: Poly): (v: Kem.CodeVec)
    requires |a| == MESSAGE
  {
    seq(Kem.CODE_WORDS, i requires 0 <= i < Kem.CODE_WORDS =>
      seq(W.BITS, k requires 0 <= k < W.BITS =>
        CodeBit(Index(Codeword(a)[(W.BITS * i + k) / H.N / 3]), (W.BITS * i + k) % H.N)))
  }

  lemma EncodedBits(a: Poly)
    requires |a| == MESSAGE
    ensures Encodes(Copies(CodeBits(a)), a)
  {
    hide BitAt, CodeBit, Index, Codeword, Copies;
    var v := CodeBits(a);
    forall q, p | 0 <= q < COPIES && 0 <= p < H.N
      ensures BitAt(Copies(v)[q], p) == CodeBit(Index(Codeword(a)[q / 3]), p)
    {
      CopyBit(v, q, p);
      BitPlace(q, p);
      CopyPlace(q, p);
    }
  }

  lemma CopyPlace(q: nat, p: nat)
    requires p < H.N
    ensures (H.N * q + p) / H.N == q && (H.N * q + p) % H.N == p
  {}

  // ---- noise

  /** The number of set bits among the n from position from on. */
  function SetIn(v: seq<W.Word>, from: nat, n: nat): nat {
    if n == 0 then 0 else SetIn(v, from, n - 1) + if W.BitOf(v, from + n - 1) then 1 else 0
  }

  lemma {:induction false} SetInSplit(v: seq<W.Word>, from: nat, a: nat, b: nat)
    ensures SetIn(v, from, a + b) == SetIn(v, from, a) + SetIn(v, from + a, b)
  {
    hide W.BitOf;
    if b > 0 { SetInSplit(v, from, a, b - 1); }
  }

  const BLOCK := H.N * MULTIPLICITY

  /** The blocks below n in which more than 95 of the 384 bits are set. */
  function NoisyBlocks(noise: seq<W.Word>, n: nat): nat {
    if n == 0 then 0 else NoisyBlocks(noise, n - 1) + if SetIn(noise, BLOCK * (n - 1), BLOCK) > 95 then 1 else 0
  }

  /** w is the code word c with the bits of the noise flipped. */
  ghost predicate Flipped(w: Kem.CodeVec, c: Kem.CodeVec, noise: seq<W.Word>) {
    forall k {:trigger W.BitOf(w, k)} :: 0 <= k < Kem.CODE_BITS ==> W.BitOf(w, k) == (W.BitOf(c, k) != W.BitOf(noise, k))
  }

  lemma {:induction false} MismatchesAreNoise(w: Kem.CodeVec, noise: seq<W.Word>, q: nat, b: nat, n: nat)
    requires q < COPIES && n <= H.N
    requires forall p :: 0 <= p < H.N ==> BitAt(Copies(w)[q], p) == (CodeBit(b, p) != W.BitOf(noise, H.N * q + p))
    ensures Mismatches(Copies(w)[q], b, n) == SetIn(noise, H.N * q, n)
  {
    hide BitAt, CodeBit, W.BitOf, Copies;
    if n > 0 { MismatchesAreNoise(w, noise, q, b, n - 1); }
  }

  /** The flipped bits of block i are the bits of the noise there. */
  lemma FlipsAreNoise(w: Kem.CodeVec, c: Kem.CodeVec, noise: seq<W.Word>, msg: Poly, i: nat)
    requires Encodes(Copies(c), msg) && Flipped(w, c, noise) && i < BYTES
    ensures Flips(Copies(w)[3 * i..3 * i + 3], Index(Codeword(msg)[i])) == SetIn(noise, BLOCK * i, BLOCK)
  {
    hide BitAt, CodeBit, W.BitOf, Index, Codeword, Copies, SetIn, Mismatches;
    var b := Index(Codeword(msg)[i]);
    forall q, p | 3 * i <= q < 3 * i + 3 && 0 <= p < H.N
      ensures BitAt(Copies(w)[q], p) == (CodeBit(b, p) != W.BitOf(noise, H.N * q + p))
    {
      CopyBit(w, q, p);
      CopyBit(c, q, p);
      assert q / 3 == i;
    }
    MismatchesAreNoise(w, noise, 3 * i, b, H.N);
    MismatchesAreNoise(w, noise, 3 * i + 1, b, H.N);
    MismatchesAreNoise(w, noise, 3 * i + 2, b, H.N);
    SetInSplit(noise, BLOCK * i, H.N, 2 * H.N);
    SetInSplit(noise, BLOCK * i + H.N, H.N, H.N);
  }

  /** The bad blocks of a received word are the noisy blocks of its noise. */
  lemma {:induction false} BadAreNoisy(w: Kem.CodeVec, c: Kem.CodeVec, noise: seq<W.Word>, msg: Poly, n: nat)
    requires Encodes(Copies(c), msg) && Flipped(w, c, noise) && n <= LENGTH
    ensures BadBlocks(Copies(w), Codeword(msg), n) == NoisyBlocks(noise, n)
  {
    hide Flips, Flipped, Encodes, Index, Codeword, Copies, SetIn;
    if n > 0 {
      EncodesLength(Copies(c), msg);
      BadAreNoisy(w, c, noise, msg, n - 1);
      FlipsAreNoise(w, c, noise, msg, n - 1);
      ByteRoundTrip(0, Codeword(msg)[n - 1]);
    }
  }
}
