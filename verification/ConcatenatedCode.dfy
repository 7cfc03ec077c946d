/** code.c: the Reed-Solomon code inside, the duplicated Reed-Muller code outside. */
module ConcatenatedCode {
  import opened Gf256
  import opened Polynomials
  import opened RadixConversion
  import opened Berlekamp
  import opened RootFinder
  import opened ReedSolomonEncoder
  import opened Syndromes
  import opened ReedSolomonDecoder
  import opened ReedMuller
  import H = Hadamard
  import Octets

  function FromByte(n: nat): Elt
    requires n < 256
  {
    Elt(n as bv8)
  }

  lemma ByteRoundTrip(n: nat, a: Elt)
    ensures n < 256 ==> Index(FromByte(n)) == n
    ensures Index(a) < 256 && FromByte(Index(a)) == a
  {
    if n < 256 {
      Octets.NumberBack(n);
    }
    Octets.OctetBack(Octets.Octet(a.v));
  }

  /** cdw is the encoding of msg: three copies of the Reed-Muller word of every Reed-Solomon symbol. */
  ghost predicate Encodes(cdw: seq<Copy>, msg: Poly) {
    && |msg| == MESSAGE && |cdw| == BYTES * MULTIPLICITY
    && forall q, p :: 0 <= q < |cdw| && 0 <= p < H.N ==> BitAt(cdw[q], p) == CodeBit(Index(Codeword(msg)[q / 3]), p)
  }

  method CodeEncode(m: Poly) returns (em: seq<Copy>)
    requires |m| == MESSAGE
    ensures Encodes(em, m)
  {
    hide BitAt, CodeBit, Codeword, Index;
    var cdw := ReedSolomonEncode(m);
    var bytes := seq(BYTES, i requires 0 <= i < BYTES => Index(cdw[i]));
    forall i | 0 <= i < BYTES ensures bytes[i] < 256 { ByteRoundTrip(0, cdw[i]); }
    em := ReedMullerEncode(bytes);
  }

  /** The number of blocks below n with more than 95 of their 384 bits away from the word of their symbol. */
  ghost function BadBlocks(em: seq<Copy>, c: Poly, n: nat): nat
    requires n <= LENGTH == |c|
  {
    if n == 0 then 0 else BadBlocks(em, c, n - 1) + if Near(em, n - 1, Index(c[n - 1])) then 0 else 1
  }

  /** Only bad blocks reach the outer decoder as errors. */
  lemma {:induction false} ErrorsAreBad(em: seq<Copy>, c: Poly, word: Poly, n: nat)
    requires n <= LENGTH == |c| == |word|
    requires forall i :: 0 <= i < LENGTH && Near(em, i, Index(c[i])) ==> word[i] == c[i]
    ensures |Support(Plus(c, word)[..n], 0)| <= BadBlocks(em, c, n)
  {
    hide Near, Index, Add;
    var e := Plus(c, word);
    if n == 0 {
      EmptySupport(e[..0]);
    } else {
      ErrorsAreBad(em, c, word, n - 1);
      SupportStep(e, n - 1);
      AddCancel(c[n - 1], word[n - 1]);
    }
  }

  /** With few bad blocks, symbols that are right where the block is not bad are within reach of the outer code. */
  lemma FewBadBlocks(em: seq<Copy>, msg: Poly, word: Poly)
    requires |msg| == MESSAGE && |word| == LENGTH && BadBlocks(em, Codeword(msg), LENGTH) <= DELTA
    requires forall i :: 0 <= i < LENGTH && Near(em, i, Index(Codeword(msg)[i])) ==> word[i] == Codeword(msg)[i]
    ensures Received(word, msg, Plus(Codeword(msg), word))
  {
    hide Near, Index, Codeword, Support, BadBlocks;
    var c := Codeword(msg);
    ErrorsAreBad(em, c, word, LENGTH);
    var e := Plus(c, word);
    assert e[..LENGTH] == e;
    PlusBack(c, word);
  }

  /** At most one message has at most 15 bad blocks. */
  lemma UniqueMessage(em: seq<Copy>, m0: Poly, m1: Poly)
    requires |m0| == |m1| == MESSAGE
    requires BadBlocks(em, Codeword(m0), LENGTH) <= DELTA && BadBlocks(em, Codeword(m1), LENGTH) <= DELTA
    ensures m0 == m1
  {
    hide Near, Index, Codeword, BadBlocks, Received;
    var c0, c1 := Codeword(m0), Codeword(m1);
    var word := seq(LENGTH, i requires 0 <= i < LENGTH => if Near(em, i, Index(c0[i])) then c0[i] else c1[i]);
    forall i | 0 <= i < LENGTH && Near(em, i, Index(c1[i]))
      ensures word[i] == c1[i]
    {
      if Near(em, i, Index(c0[i])) {
        NearOnce(em, i, Index(c0[i]), Index(c1[i]));
        ByteRoundTrip(0, c0[i]);
        ByteRoundTrip(0, c1[i]);
      }
    }
    FewBadBlocks(em, m0, word);
    FewBadBlocks(em, m1, word);
    UniqueDecoding(word, m0, Plus(c0, word), m1, Plus(c1, word));
  }

  /** code_decode returns the message whenever at most 15 of the 46 blocks are bad. */
  method CodeDecode(em: seq<Copy>, exp: seq<Elt>, log: seq<nat>) returns (m: Poly)
    requires |em| == BYTES * MULTIPLICITY && LogTable(log)
    requires |exp| == 258 && forall i :: 0 <= i < 258 ==> exp[i] == Alpha(i)
    ensures |m| == MESSAGE
    ensures forall msg: Poly :: |msg| == MESSAGE && BadBlocks(em, Codeword(msg), LENGTH) <= DELTA ==> m == msg
  {
    hide Near, Index, Codeword, Shifted, Support, BadBlocks, LogTable;
    var bytes := ReedMullerDecode(em);
    var word := seq(LENGTH, i requires 0 <= i < LENGTH => FromByte(bytes[i]));
    m := ReedSolomonDecode(word, exp, log);
    forall msg: Poly | |msg| == MESSAGE && BadBlocks(em, Codeword(msg), LENGTH) <= DELTA
      ensures m == msg
    {
      var c := Codeword(msg);
      forall i | 0 <= i < LENGTH && Near(em, i, Index(c[i]))
        ensures word[i] == c[i]
      {
        assert bytes[i] == Index(c[i]);
        ByteRoundTrip(0, c[i]);
      }
      FewBadBlocks(em, msg, word);
    }
  }

  lemma PlusBack(a: Poly, b: Poly)
    requires |a| == |b|
    ensures Plus(a, Plus(a, b)) == b
  {
    hide Add;
    forall i | 0 <= i < |a| ensures Plus(a, Plus(a, b))[i] == b[i] { AddCancel(b[i], a[i]); }
  }

  lemma {:induction false} CleanBlocks(w: Copy, m: nat, n: nat)
    requires n <= H.N && forall p :: 0 <= p < H.N ==> BitAt(w, p) == CodeBit(m, p)
    ensures Mismatches(w, m, n) == 0
  {
    hide BitAt, CodeBit;
    if n > 0 { CleanBlocks(w, m, n - 1); }
  }

  lemma {:induction false} NoBadBlocks(em: seq<Copy>, msg: Poly, n: nat)
    requires Encodes(em, msg) && n <= LENGTH
    ensures BadBlocks(em, Codeword(msg), n) == 0
  {
    hide BitAt, CodeBit, Index, Codeword;
    if n > 0 {
      NoBadBlocks(em, msg, n - 1);
      var i := n - 1;
      var b := Index(Codeword(msg)[i]);
      ByteRoundTrip(0, Codeword(msg)[i]);
      var src := em[3 * i..3 * i + 3];
      assert (3 * i) / 3 == i && (3 * i + 1) / 3 == i && (3 * i + 2) / 3 == i;
      CleanBlocks(src[0], b, H.N);
      CleanBlocks(src[1], b, H.N);
      CleanBlocks(src[2], b, H.N);
    }
  }

  /** Decoding undoes encoding. */
  method RoundTrip(m: Poly, exp: seq<Elt>, log: seq<nat>) returns (r: Poly)
    requires |m| == MESSAGE && LogTable(log)
    requires |exp| == 258 && forall i :: 0 <= i < 258 ==> exp[i] == Alpha(i)
    ensures r == m
  {
    hide LogTable, Shifted, Encodes, BadBlocks, Codeword;
    var em := CodeEncode(m);
    NoBadBlocks(em, m, LENGTH);
    assert |em| == BYTES * MULTIPLICITY by { EncodesLength(em, m); }
    r := CodeDecode(em, exp, log);
  }

  lemma EncodesLength(em: seq<Copy>, m: Poly)
    requires Encodes(em, m)
    ensures |em| == BYTES * MULTIPLICITY && |m| == MESSAGE
  {}
}
