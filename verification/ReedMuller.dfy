/** reed_muller.c: the duplicated Reed-Muller code RM(1,7) and its decoder. */
module ReedMuller {
  import opened Words32
  import opened Hadamard

  const MULTIPLICITY := 3

  type Copy = w: seq<Word> | |w| == 4 witness [Word(0), Word(0), Word(0), Word(0)]

  /** Bit p of a codeword of four words. */
  predicate BitAt(w: Copy, p: nat)
    requires p < N
  {
    WordBit(w[p / 32], p % 32)
  }

  /** Bit p of the code word of message m: the affine function with coefficients m. */
  predicate CodeBit(m: nat, p: nat) {
    (m / 128 % 2 == 1) != Odd(p, m, 7)
  }

  // ---- encode

  lemma OddUnfold(p: nat, m: nat)
    ensures Odd(p, m, 7) == ((p % 2 == 1 && m % 2 == 1) != ((p / 2 % 2 == 1 && m / 2 % 2 == 1)
      != ((p / 4 % 2 == 1 && m / 4 % 2 == 1) != ((p / 8 % 2 == 1 && m / 8 % 2 == 1)
      != ((p / 16 % 2 == 1 && m / 16 % 2 == 1) != ((p / 32 % 2 == 1 && m / 32 % 2 == 1)
      != (p / 64 % 2 == 1 && m / 64 % 2 == 1)))))))
  {
    OddStep(p, m, 7);
    OddStep(p / 2, m / 2, 6);
    OddStep(p / 4, m / 4, 5);
    OddStep(p / 8, m / 8, 4);
    OddStep(p / 16, m / 16, 3);
    OddStep(p / 32, m / 32, 2);
    OddStep(p / 64, m / 64, 1);
    HalvesOf(p);
    HalvesOf(m);
  }

  lemma OddStep(p: nat, j: nat, n: nat)
    requires n > 0
    ensures Odd(p, j, n) == ((p % 2 == 1 && j % 2 == 1) != Odd(p / 2, j / 2, n - 1))
    ensures !Odd(p, j, 0)
  {}

  lemma HalvesOf(p: nat)
    ensures p / 2 / 2 == p / 4 && p / 4 / 2 == p / 8 && p / 8 / 2 == p / 16
    ensures p / 16 / 2 == p / 32 && p / 32 / 2 == p / 64
  {}

  /** The first word: the rows of the matrix selected by the bits of the message. */
  function FirstWord(message: nat): Word {
    var w0 := Select(message / 128 % 2 == 1, 0xffffffff);
    var w1 := Xor(w0, Select(message % 2 == 1, 0xaaaaaaaa));
    var w2 := Xor(w1, Select(message / 2 % 2 == 1, 0xcccccccc));
    var w3 := Xor(w2, Select(message / 4 % 2 == 1, 0xf0f0f0f0));
    var w4 := Xor(w3, Select(message / 8 % 2 == 1, 0xff00ff00));
    Xor(w4, Select(message / 16 % 2 == 1, 0xffff0000))
  }

  lemma FirstWordBits(m: nat, i: nat)
    requires i < 32
    ensures WordBit(FirstWord(m), i) == ((m / 128 % 2 == 1) != ((i % 2 == 1 && m % 2 == 1)
      != ((i / 2 % 2 == 1 && m / 2 % 2 == 1) != ((i / 4 % 2 == 1 && m / 4 % 2 == 1)
      != ((i / 8 % 2 == 1 && m / 8 % 2 == 1) != (i / 16 % 2 == 1 && m / 16 % 2 == 1))))))
  {
    hide Xor, Select, WordBit;
    var c, c0, c1, c2, c3, c4 := m / 128 % 2 == 1, m % 2 == 1, m / 2 % 2 == 1, m / 4 % 2 == 1, m / 8 % 2 == 1, m / 16 % 2 == 1;
    var w0 := Select(c, 0xffffffff);
    var w1 := Xor(w0, Select(c0, 0xaaaaaaaa));
    var w2 := Xor(w1, Select(c1, 0xcccccccc));
    var w3 := Xor(w2, Select(c2, 0xf0f0f0f0));
    var w4 := Xor(w3, Select(c3, 0xff00ff00));
    BitSelect(c, 0xffffffff, i); BitsOfOnes(i);
    BitSelect(c0, 0xaaaaaaaa, i); BitsOfA(i); BitXor(w0, Select(c0, 0xaaaaaaaa), i);
    BitSelect(c1, 0xcccccccc, i); BitsOfC(i); BitXor(w1, Select(c1, 0xcccccccc), i);
    BitSelect(c2, 0xf0f0f0f0, i); BitsOfF0(i); BitXor(w2, Select(c2, 0xf0f0f0f0), i);
    BitSelect(c3, 0xff00ff00, i); BitsOfFF00(i); BitXor(w3, Select(c3, 0xff00ff00), i);
    BitSelect(c4, 0xffff0000, i); BitsOfFFFF(i); BitXor(w4, Select(c4, 0xffff0000), i);
  }

  /** The words are written in the order 0, 1, 3, 2, each differing from the one before in one row. */
  method Encode(message: nat) returns (word: Copy)
    requires message < 256
    ensures forall p :: 0 <= p < N ==> BitAt(word, p) == CodeBit(message, p)
  {
    hide Xor, Select, WordBit, FirstWord, CodeBit;
    var w0 := FirstWord(message);
    var row5, row6 := Select(message / 32 % 2 == 1, 0xffffffff), Select(message / 64 % 2 == 1, 0xffffffff);
    var w1 := Xor(w0, row5);
    var w3 := Xor(w1, row6);
    var w2 := Xor(w3, row5);
    word := [w0, w1, w2, w3];
    forall p | 0 <= p < N
      ensures BitAt(word, p) == CodeBit(message, p)
    {
      var i := p % 32;
      BitSelect(message / 32 % 2 == 1, 0xffffffff, i);
      BitSelect(message / 64 % 2 == 1, 0xffffffff, i);
      BitsOfOnes(i);
      BitXor(w0, row5, i);
      BitXor(w1, row6, i);
      BitXor(w3, row5, i);
      WordsOfCode(message, p);
    }
  }

  /** How the code bit depends on the word that holds it. */
  lemma WordsOfCode(m: nat, p: nat)
    requires p < N
    ensures CodeBit(m, p) == (WordBit(FirstWord(m), p % 32)
      != ((p / 32 % 2 == 1 && m / 32 % 2 == 1) != (p / 64 % 2 == 1 && m / 64 % 2 == 1)))
    ensures p / 32 == p / 32 % 2 + 2 * (p / 64 % 2)
  {
    hide WordBit, FirstWord;
    FirstWordBits(m, p % 32);
    OddUnfold(p, m);
    LowBits(p);
  }

  lemma LowBits(p: nat)
    requires p < N
    ensures p % 32 % 2 == p % 2 && p % 32 / 2 % 2 == p / 2 % 2 && p % 32 / 4 % 2 == p / 4 % 2
    ensures p % 32 / 8 % 2 == p / 8 % 2 && p % 32 / 16 % 2 == p / 16 % 2
    ensures p / 32 == p / 32 % 2 + 2 * (p / 64 % 2)
  {
    var q, i := p / 32, p % 32;
    assert p == 32 * q + i;
    LowBitsOf(q, i);
    Quotient64(q, i);
    TwoBits(q);
  }

  lemma TwoBits(q: nat)
    requires q < 4
    ensures q == q % 2 + 2 * (q / 2 % 2)
  {}

  /** Adding a multiple of 32 keeps the five low bits. */
  lemma LowBitsOf(q: nat, i: nat)
    ensures (32 * q + i) % 2 == i % 2 && (32 * q + i) / 2 % 2 == i / 2 % 2 && (32 * q + i) / 4 % 2 == i / 4 % 2
    ensures (32 * q + i) / 8 % 2 == i / 8 % 2 && (32 * q + i) / 16 % 2 == i / 16 % 2
  {
    Quotients(q, i);
    Parity(16 * q, i);
    Parity(8 * q, i / 2);
    Parity(4 * q, i / 4);
    Parity(2 * q, i / 8);
    Parity(q, i / 16);
  }

  lemma Quotients(q: nat, i: nat)
    ensures (32 * q + i) / 2 == 16 * q + i / 2 && (32 * q + i) / 4 == 8 * q + i / 4
    ensures (32 * q + i) / 8 == 4 * q + i / 8 && (32 * q + i) / 16 == 2 * q + i / 16
  {}

  lemma Parity(x: nat, y: nat)
    ensures (2 * x + y) % 2 == y % 2
  {}

  lemma Quotient64(q: nat, i: nat)
    requires i < 32
    ensures (32 * q + i) / 64 == q / 2
  {}

  // ---- expand_and_sum

  function Bit01(b: bool): int { if b then 1 else 0 }

  /** The number of the first k copies in which bit p is set. */
  function SumCopies(src: seq<Copy>, p: nat, k: nat): (s: int)
    requires p < N && k <= |src|
    ensures 0 <= s <= k
  {
    if k == 0 then 0 else SumCopies(src, p, k - 1) + Bit01(BitAt(src[k - 1], p))
  }

  method ExpandAndSum(dest: array<int>, src: seq<Copy>)
    requires dest.Length == N && |src| == MULTIPLICITY
    modifies dest
    ensures forall p :: 0 <= p < N ==> dest[p] == SumCopies(src, p, MULTIPLICITY)
  {
    hide WordBit;
    var part := 0;
    while part < 4
      invariant 0 <= part <= 4
      invariant forall p :: 0 <= p < 32 * part ==> dest[p] == SumCopies(src, p, 1)
    {
      var bit := 0;
      while bit < 32
        invariant 0 <= bit <= 32
        invariant forall p :: 0 <= p < 32 * part + bit ==> dest[p] == SumCopies(src, p, 1)
      {
        Position(part, bit);
        dest[part * 32 + bit] := Bit01(WordBit(src[0][part], bit));
        assert SumCopies(src, part * 32 + bit, 0) == 0;
        bit := bit + 1;
      }
      part := part + 1;
    }
    var copy := 1;
    while copy < MULTIPLICITY
      invariant 1 <= copy <= MULTIPLICITY
      invariant forall p :: 0 <= p < N ==> dest[p] == SumCopies(src, p, copy)
    {
      AddCopy(dest, src, copy);
      copy := copy + 1;
    }
  }

  lemma Position(part: nat, bit: nat)
    requires part < 4 && bit < 32
    ensures (part * 32 + bit) / 32 == part && (part * 32 + bit) % 32 == bit
  {}

  method AddCopy(dest: array<int>, src: seq<Copy>, copy: nat)
    requires dest.Length == N && copy < |src|
    modifies dest
    ensures forall p :: 0 <= p < N ==> dest[p] == old(dest[p]) + Bit01(BitAt(src[copy], p))
  {
    hide WordBit;
    var part := 0;
    while part < 4
      invariant 0 <= part <= 4
      invariant forall p :: 0 <= p < 32 * part ==> dest[p] == old(dest[p]) + Bit01(BitAt(src[copy], p))
      invariant forall p :: 32 * part <= p < N ==> dest[p] == old(dest[p])
    {
      var bit := 0;
      while bit < 32
        invariant 0 <= bit <= 32
        invariant forall p :: 0 <= p < 32 * part + bit ==> dest[p] == old(dest[p]) + Bit01(BitAt(src[copy], p))
        invariant forall p :: 32 * part + bit <= p < N ==> dest[p] == old(dest[p])
      {
        Position(part, bit);
        dest[part * 32 + bit] := dest[part * 32 + bit] + Bit01(WordBit(src[copy][part], bit));
        bit := bit + 1;
      }
      part := part + 1;
    }
  }

  // ---- find_peaks

  function Abs(x: int): nat { if x > 0 then x else -x }

  /** The first position of the largest absolute value, plus 128 when the value there is positive. */
  method FindPeaks(transform: seq<int>) returns (message: nat)
    requires |transform| == N
    ensures message < 256
    ensures forall i :: 0 <= i < N ==> Abs(transform[i]) <= Abs(transform[message % 128])
    ensures forall i :: 0 <= i < message % 128 ==> Abs(transform[i]) < Abs(transform[message % 128])
    ensures message >= 128 <==> transform[message % 128] > 0
  {
    var peakAbs, peakValue, peakPos := 0, 0, 0;
    var i := 0;
    while i < N
      invariant 0 <= i <= N && 0 <= peakPos < N && (peakPos < i || peakPos == 0)
      invariant peakAbs == Abs(peakValue)
      invariant if peakAbs == 0 then peakPos == 0 else peakValue == transform[peakPos]
      invariant forall k :: 0 <= k < i ==> Abs(transform[k]) <= peakAbs
      invariant forall k :: 0 <= k < peakPos ==> Abs(transform[k]) < peakAbs
    {
      var t := transform[i];
      var absolute := Abs(t);
      peakValue, peakPos, peakAbs := if absolute > peakAbs then t else peakValue, if absolute > peakAbs then i else peakPos,
        if absolute > peakAbs then absolute else peakAbs;
      i := i + 1;
    }
    message := peakPos + if peakValue > 0 then 128 else 0;
  }

  // ---- the transform of a code word

  /** c * (-1)^(p.a) at the points p. */
  function Character(a: nat, n: nat, size: nat, c: int): (v: seq<int>)
    ensures |v| == size
  {
    seq(size, p requires 0 <= p < size => Signed(Odd(p, a, n), c))
  }

  lemma HalfCharacter(a: nat, n: nat, h: nat, c: int, minus: bool)
    requires n > 0
    ensures Half(Character(a, n, 2 * h, c), minus)
         == Character(a / 2, n - 1, h, if (a % 2 == 1) == minus then 2 * c else 0)
  {
    var v := Character(a, n, 2 * h, c);
    forall i | 0 <= i < h
      ensures v[2 * i] + Signed(minus, v[2 * i + 1]) == Signed(Odd(i, a / 2, n - 1), if (a % 2 == 1) == minus then 2 * c else 0)
    {
      OddStep(2 * i, a, n);
      OddStep(2 * i + 1, a, n);
      assert (2 * i + 1) / 2 == i;
    }
  }

  /** Orthogonality of the characters. */
  lemma {:induction false} Orthogonal(a: nat, j: nat, k: nat, c: int)
    requires k <= 7 && a < Growth(k) && j < Growth(k)
    ensures Correlation(Character(a, k, Growth(k), c), j, k, Growth(k)) == if a == j then Growth(k) * c else 0
  {
    hide Correlation, Odd, Character, Growth;
    if k == 0 {
      OrthogonalBase(a, j, c);
    } else {
      GrowthDoubles(k - 1);
      var h, c' := Growth(k - 1), if (a % 2 == 1) == (j % 2 == 1) then 2 * c else 0;
      HalfCharacter(a, k, h, c, j % 2 == 1);
      CorrelationHalf(Character(a, k, 2 * h, c), j, k, h);
      Orthogonal(a / 2, j / 2, k - 1, c');
      assert h * (2 * c) == 2 * h * c;
      assert h * 0 == 0;
    }
  }

  lemma OrthogonalBase(a: nat, j: nat, c: int)
    requires a < Growth(0) && j < Growth(0)
    ensures Correlation(Character(a, 0, Growth(0), c), j, 0, Growth(0)) == if a == j then Growth(0) * c else 0
  {
    var v := Character(a, 0, 1, c);
    assert v[0] == c;
    assert Correlation(v, j, 0, 0) == 0;
    assert Growth(0) == 1;
  }

  lemma {:induction false} CorrelationCombine(u: seq<int>, s: seq<int>, t: seq<int>, j: nat, n: nat, m: nat)
    requires |u| == |s| == |t| && m <= |u|
    requires forall p :: 0 <= p < m ==> 2 * u[p] == s[p] + t[p]
    ensures 2 * Correlation(u, j, n, m) == Correlation(s, j, n, m) + Correlation(t, j, n, m)
  {
    hide Odd;
    if m > 0 { CorrelationCombine(u, s, t, j, n, m - 1); }
  }

  /** The sums a receiver without errors would see. */
  function Ideal(m: nat): (v: seq<int>)
    ensures |v| == N
  {
    seq(N, p requires 0 <= p < N => 3 * Bit01(CodeBit(m, p)))
  }

  lemma OddOfMod(p: nat, m: nat)
    requires m < 256
    ensures Odd(p, m, 7) == Odd(p, m % 128, 7) && !Odd(p, 0, 7)
  {
    OddUnfold(p, m);
    OddUnfold(p, m % 128);
    OddUnfold(p, 0);
    ModBits(m);
  }

  lemma ModBits(m: nat)
    requires m < 256
    ensures m % 128 % 2 == m % 2 && m % 128 / 2 % 2 == m / 2 % 2 && m % 128 / 4 % 2 == m / 4 % 2
    ensures m % 128 / 8 % 2 == m / 8 % 2 && m % 128 / 16 % 2 == m / 16 % 2 && m % 128 / 32 % 2 == m / 32 % 2
    ensures m % 128 / 64 % 2 == m / 64 % 2 && (m / 128 % 2 == 1 <==> m >= 128)
  {
    if m >= 128 {
      var r := m - 128;
      assert m % 128 == r && m == 32 * 4 + r;
      LowBitsOf(4, r);
      Quotients32(r);
      Parity(2, r / 32);
      Parity(1, r / 64);
    } else {
      assert m % 128 == m && m / 128 == 0;
    }
  }

  lemma Quotients32(r: nat)
    ensures (128 + r) / 32 == 4 + r / 32 && (128 + r) / 64 == 2 + r / 64
  {}

  /** Without errors the corrected transform is 192 or -192 at the message and 0 elsewhere. */
  lemma IdealTransform(m: nat, j: nat)
    requires m < 256 && j < N
    ensures Correlation(Ideal(m), j, 7, N) - (if j == 0 then 192 else 0)
         == if j == m % 128 then (if m >= 128 then 192 else -192) else 0
  {
    hide Correlation, Odd;
    ModBits(m);
    var c := if m >= 128 then 3 else -3;
    var u, s, t := Ideal(m), Character(0, 7, N, 3), Character(m % 128, 7, N, c);
    forall p | 0 <= p < N
      ensures 2 * u[p] == s[p] + t[p]
    {
      OddOfMod(p, m);
    }
    CorrelationCombine(u, s, t, j, 7, N);
    Orthogonal(0, j, 7, 3);
    Orthogonal(m % 128, j, 7, c);
  }

  // ---- errors

  /** The number of positions below n where the copy differs from the code word of m. */
  function Mismatches(w: Copy, m: nat, n: nat): nat
    requires n <= N
  {
    if n == 0 then 0 else Mismatches(w, m, n - 1) + if BitAt(w, n - 1) != CodeBit(m, n - 1) then 1 else 0
  }

  /** The number of flipped bits in the three copies. */
  function Flips(src: seq<Copy>, m: nat): nat
    requires |src| == MULTIPLICITY
  {
    Mismatches(src[0], m, N) + Mismatches(src[1], m, N) + Mismatches(src[2], m, N)
  }

  /** Every flipped bit moves every entry of the transform by at most one. */
  lemma {:induction false} TransformDistance(v: seq<int>, src: seq<Copy>, m: nat, j: nat, n: nat)
    requires |v| == N && |src| == MULTIPLICITY && n <= N
    requires forall p :: 0 <= p < n ==> v[p] == SumCopies(src, p, MULTIPLICITY)
    ensures Abs(Correlation(v, j, 7, n) - Correlation(Ideal(m), j, 7, n))
         <= Mismatches(src[0], m, n) + Mismatches(src[1], m, n) + Mismatches(src[2], m, n)
  {
    hide Odd, WordBit, CodeBit, BitAt;
    if n > 0 {
      TransformDistance(v, src, m, j, n - 1);
      ThreeCopies(src, n - 1);
    }
  }

  lemma ThreeCopies(src: seq<Copy>, p: nat)
    requires |src| == MULTIPLICITY && p < N
    ensures SumCopies(src, p, MULTIPLICITY) == Bit01(BitAt(src[0], p)) + Bit01(BitAt(src[1], p)) + Bit01(BitAt(src[2], p))
  {
    hide BitAt;
    assert SumCopies(src, p, 1) == Bit01(BitAt(src[0], p)) by { assert SumCopies(src, p, 0) == 0; }
    assert SumCopies(src, p, 2) == SumCopies(src, p, 1) + Bit01(BitAt(src[1], p));
  }

  /** With at most 95 flips the peak is unique (at least 97 against at most 95) and its sign gives bit 7. */
  lemma PeakIsMessage(t: seq<int>, v: seq<int>, src: seq<Copy>, m: nat, r: nat)
    requires |t| == |v| == N && |src| == MULTIPLICITY && m < 256 && r < 256 && Flips(src, m) <= 95
    requires forall p :: 0 <= p < N ==> v[p] == SumCopies(src, p, MULTIPLICITY)
    requires forall j :: 0 <= j < N ==> t[j] == Correlation(v, j, 7, N) - if j == 0 then 192 else 0
    requires forall i :: 0 <= i < N ==> Abs(t[i]) <= Abs(t[r % 128])
    requires r >= 128 <==> t[r % 128] > 0
    ensures r == m
  {
    hide Correlation, Mismatches, SumCopies, Ideal;
    var a, q := m % 128, r % 128;
    IdealTransform(m, a);
    IdealTransform(m, q);
    TransformDistance(v, src, m, a, N);
    TransformDistance(v, src, m, q, N);
    assert Abs(t[a]) >= 97;
    assert Abs(t[a]) <= Abs(t[q]);
    assert q == a;
  }

  method DecodeBlock(src: seq<Copy>) returns (message: nat)
    requires |src| == MULTIPLICITY
    ensures message < 256
    ensures forall m :: 0 <= m < 256 && Flips(src, m) <= 95 ==> message == m
  {
    hide Correlation, Flips, SumCopies;
    var expanded, transform := new int[N], new int[N];
    ExpandAndSum(expanded, src);
    ghost var v := expanded[..];
    Transform(expanded, transform);
    transform[0] := transform[0] - 64 * MULTIPLICITY;
    message := FindPeaks(transform[..]);
    forall m | 0 <= m < 256 && Flips(src, m) <= 95
      ensures message == m
    {
      PeakIsMessage(transform[..], v, src, m, message);
    }
  }

  const BYTES := 46

  /** reed_muller_encode: three copies of the code word of every byte. */
  method ReedMullerEncode(msg: seq<nat>) returns (cdw: seq<Copy>)
    requires |msg| == BYTES && forall i :: 0 <= i < BYTES ==> msg[i] < 256
    ensures |cdw| == BYTES * MULTIPLICITY
    ensures forall q, p :: 0 <= q < |cdw| && 0 <= p < N ==> BitAt(cdw[q], p) == CodeBit(msg[q / 3], p)
  {
    hide BitAt, CodeBit;
    cdw := [];
    var i := 0;
    while i < BYTES
      invariant 0 <= i <= BYTES && |cdw| == 3 * i
      invariant forall q, p :: 0 <= q < |cdw| && 0 <= p < N ==> BitAt(cdw[q], p) == CodeBit(msg[q / 3], p)
    {
      var word := Encode(msg[i]);
      cdw := cdw + [word];
      var copy := 1;
      while copy < MULTIPLICITY
        invariant 1 <= copy <= MULTIPLICITY && |cdw| == 3 * i + copy
        invariant forall p :: 0 <= p < N ==> BitAt(word, p) == CodeBit(msg[i], p)
        invariant forall q :: 3 * i <= q < |cdw| ==> cdw[q] == word
        invariant forall q, p :: 0 <= q < 3 * i && 0 <= p < N ==> BitAt(cdw[q], p) == CodeBit(msg[q / 3], p)
      {
        cdw := cdw + [word];
        copy := copy + 1;
      }
      i := i + 1;
    }
  }

  /** Block i of the received word is within 95 bits of the code word of the byte m. */
  ghost predicate Near(cdw: seq<Copy>, i: int, m: int) {
    |cdw| == BYTES * MULTIPLICITY && 0 <= i < BYTES && 0 <= m < 256 && Flips(cdw[3 * i..3 * i + 3], m) <= 95
  }

  /** Two code words are 192 bits apart, so a block is near at most one. */
  lemma NearOnce(cdw: seq<Copy>, i: int, a: int, b: int)
    requires Near(cdw, i, a) && Near(cdw, i, b)
    ensures a == b
  {
    hide Correlation, Mismatches, SumCopies, Ideal;
    var src, j := cdw[3 * i..3 * i + 3], a % 128;
    var v := Sums(src);
    TransformDistance(v, src, a, j, N);
    TransformDistance(v, src, b, j, N);
    IdealTransform(a, j);
    IdealTransform(b, j);
  }

  /** The sums that expand_and_sum computes. */
  function Sums(src: seq<Copy>): (v: seq<int>)
    requires |src| == MULTIPLICITY
    ensures |v| == N && forall p :: 0 <= p < N ==> v[p] == SumCopies(src, p, MULTIPLICITY)
  {
    seq(N, p requires 0 <= p < N => SumCopies(src, p, MULTIPLICITY))
  }

  /** reed_muller_decode returns every byte whose block has at most 95 of its 384 bits flipped. */
  method ReedMullerDecode(cdw: seq<Copy>) returns (msg: seq<nat>)
    requires |cdw| == BYTES * MULTIPLICITY
    ensures |msg| == BYTES && forall i :: 0 <= i < BYTES ==> msg[i] < 256
    ensures forall i, m :: Near(cdw, i, m) ==> msg[i] == m
  {
    hide Flips;
    msg := [];
    var i := 0;
    while i < BYTES
      invariant 0 <= i <= BYTES && |msg| == i && forall k :: 0 <= k < i ==> msg[k] < 256
      invariant forall k, m :: 0 <= k < i && Near(cdw, k, m) ==> msg[k] == m
    {
      var b := DecodeBlock(cdw[3 * i..3 * i + 3]);
      msg := msg + [b];
      i := i + 1;
    }
  }
}
