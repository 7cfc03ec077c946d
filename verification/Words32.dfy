/** 32-bit words and their bits. */
module Words32 {

  datatype Word = Word(v: bv32)

  function Xor(x: Word, y: Word): Word { Word(x.v ^ y.v) }

  function Right(w: Word, k: nat): Word
    requires k == 1 || k == 2 || k == 4 || k == 8 || k == 16
  {
    match k
    case 1 => Word(w.v >> 1) case 2 => Word(w.v >> 2) case 4 => Word(w.v >> 4) case 8 => Word(w.v >> 8) case _ => Word(w.v >> 16)
  }

  function RightIf(w: Word, c: bool, k: nat): Word
    requires k == 1 || k == 2 || k == 4 || k == 8 || k == 16
  {
    if c then Right(w, k) else w
  }

  /** w >> i, the shift amount taken bit by bit. */
  function Shr(w: Word, i: nat): Word
    requires i < 32
  {
    var w1 := RightIf(RightIf(w, i / 16 % 2 == 1, 16), i / 8 % 2 == 1, 8);
    RightIf(RightIf(RightIf(w1, i / 4 % 2 == 1, 4), i / 2 % 2 == 1, 2), i % 2 == 1, 1)
  }

  predicate Low(w: Word) { w.v & 1 == 1 }

  predicate WordBit(w: Word, i: nat)
    requires i < 32
  { Low(Shr(w, i)) }

  /** BIT0MASK(c) & k. */
  function Select(c: bool, k: bv32): Word { Word((if c then 0xFFFF_FFFF else 0) & k) }

  lemma LowXor(a: Word, b: Word)
    ensures Low(Xor(a, b)) == (Low(a) != Low(b))
  {}

  lemma RightXor(x: Word, y: Word, c: bool, k: nat)
    requires k == 1 || k == 2 || k == 4 || k == 8 || k == 16
    ensures RightIf(Xor(x, y), c, k) == Xor(RightIf(x, c, k), RightIf(y, c, k))
  {}

  lemma ShrXor(x: Word, y: Word, i: nat)
    requires i < 32
    ensures Shr(Xor(x, y), i) == Xor(Shr(x, i), Shr(y, i))
  {
    hide RightIf, Xor;
    var c16, c8, c4, c2, c1 := i / 16 % 2 == 1, i / 8 % 2 == 1, i / 4 % 2 == 1, i / 2 % 2 == 1, i % 2 == 1;
    RightXor(x, y, c16, 16);
    var x1, y1 := RightIf(x, c16, 16), RightIf(y, c16, 16);
    RightXor(x1, y1, c8, 8);
    var x2, y2 := RightIf(x1, c8, 8), RightIf(y1, c8, 8);
    RightXor(x2, y2, c4, 4);
    var x3, y3 := RightIf(x2, c4, 4), RightIf(y2, c4, 4);
    RightXor(x3, y3, c2, 2);
    RightXor(RightIf(x3, c2, 2), RightIf(y3, c2, 2), c1, 1);
  }

  lemma BitXor(x: Word, y: Word, i: nat)
    requires i < 32
    ensures WordBit(Xor(x, y), i) == (WordBit(x, i) != WordBit(y, i))
  {
    hide Shr, Xor, Low;
    ShrXor(x, y, i);
    LowXor(Shr(x, i), Shr(y, i));
  }

  lemma BitSelect(c: bool, k: bv32, i: nat)
    requires i < 32
    ensures WordBit(Select(c, k), i) == (c && WordBit(Word(k), i))
  {}

  // ---- the rows of the encoding matrix

  lemma BitsOfA(i: nat)
    requires i < 32
    ensures WordBit(Word(0xaaaaaaaa), i) == (i % 2 == 1)
  {}

  lemma BitsOfC(i: nat)
    requires i < 32
    ensures WordBit(Word(0xcccccccc), i) == (i / 2 % 2 == 1)
  {}

  lemma BitsOfF0(i: nat)
    requires i < 32
    ensures WordBit(Word(0xf0f0f0f0), i) == (i / 4 % 2 == 1)
  {}

  lemma BitsOfFF00(i: nat)
    requires i < 32
    ensures WordBit(Word(0xff00ff00), i) == (i / 8 % 2 == 1)
  {}

  lemma BitsOfFFFF(i: nat)
    requires i < 32
    ensures WordBit(Word(0xffff0000), i) == (i / 16 % 2 == 1)
  {}

  lemma BitsOfOnes(i: nat)
    requires i < 32
    ensures WordBit(Word(0xffffffff), i)
  {}

  // ---- words put together from their bits

  /** The word with only bit j set. */
  function Single(j: nat): Word
    requires j < 32
  {
    Word((1 as bv32) << j)
  }

  lemma SingleLow(j: nat, i: nat)
    requires j < 16 && i < 32
    ensures WordBit(Single(j), i) == (i == j)
  {}

  lemma SingleHigh(j: nat, i: nat)
    requires 16 <= j < 32 && i < 32
    ensures WordBit(Single(j), i) == (i == j)
  {}

  lemma ZeroBit(i: nat)
    requires i < 32
    ensures !WordBit(Word(0), i)
  {}

  function Packed(bits: seq<bool>): Word
    requires |bits| <= 32
  {
    if bits == [] then Word(0)
    else
      var n := |bits| - 1;
      if bits[n] then Xor(Packed(bits[..n]), Single(n)) else Packed(bits[..n])
  }

  lemma {:induction false} PackedBit(bits: seq<bool>, i: nat)
    requires |bits| <= 32 && i < 32
    ensures WordBit(Packed(bits), i) == (i < |bits| && bits[i])
  {
    hide Xor, Single, WordBit;
    if bits == [] {
      ZeroBit(i);
    } else {
      var n := |bits| - 1;
      PackedBit(bits[..n], i);
      if n < 16 { SingleLow(n, i); } else { SingleHigh(n, i); }
      BitXor(Packed(bits[..n]), Single(n), i);
    }
  }
}
