/** The AES context: key expansion, and the CBC and CTR modes over a buffer in place. */
module AesModes {
  import opened Remainders
  import opened Octets
  import opened AesCipher

  type Key = s: seq<Octet> | |s| == 32 witness seq(32, i => NULL)

  // ---- key expansion, section 5.2 of FIPS 197 ----

  function Rcon(i: nat): bv8
    requires 1 <= i <= 7
  {
    match i
    case 1 => 0x01 case 2 => 0x02 case 3 => 0x04 case 4 => 0x08 case 5 => 0x10 case 6 => 0x20 case _ => 0x40
  }

  /** What is added to word i - 8 to make word i, byte j of it, from the bytes of word i - 1. */
  function Turned(word: seq<Octet>, i: nat, j: nat): Octet
    requires |word| == 4 && 8 <= i < 60 && j < 4
  {
    if i % 8 == 0 then (if j == 0 then Xor(Sub(word[1]), Octet(Rcon(i / 8))) else Sub(word[(j + 1) % 4]))
    else if i % 8 == 4 then Sub(word[j])
    else word[j]
  }

  /** Word i of the expanded key. */
  function KeyWord(key: Key, i: nat): (w: seq<Octet>)
    requires i < 60
    ensures |w| == 4
  {
    if i < 8 then key[4 * i..4 * i + 4]
    else
      var last, back := KeyWord(key, i - 1), KeyWord(key, i - 8);
      seq(4, j requires 0 <= j < 4 => Xor(back[j], Turned(last, i, j)))
  }

  function Expanded(key: Key): Schedule {
    seq(240, n requires 0 <= n < 240 => KeyWord(key, n / 4)[n % 4])
  }

  // ---- CBC, section 6.2 of SP 800-38A ----

  function XorBlock(a: Block, b: Block): Block {
    seq(16, i requires 0 <= i < 16 => Xor(a[i], b[i]))
  }

  function CbcEncrypt(iv: Block, m: seq<Octet>, key: Schedule): (c: seq<Octet>)
    requires |m| % 16 == 0
    ensures |c| == |m|
    decreases |m|
  {
    if m == [] then [] else
      var c := Encrypt(XorBlock(m[..16], iv), key);
      c + CbcEncrypt(c, m[16..], key)
  }

  function CbcDecrypt(iv: Block, c: seq<Octet>, key: Schedule): (m: seq<Octet>)
    requires |c| % 16 == 0
    ensures |m| == |c|
    decreases |c|
  {
    if c == [] then [] else XorBlock(Decrypt(c[..16], key), iv) + CbcDecrypt(c[..16], c[16..], key)
  }

  /** What the context keeps as IV after the ciphertext c: its last block, or the old IV. */
  function NextIv(iv: Block, c: seq<Octet>): Block
    requires |c| % 16 == 0
  {
    if c == [] then iv else c[|c| - 16..]
  }

  lemma XorBlockTwice(a: Block, b: Block)
    ensures XorBlock(XorBlock(a, b), b) == a
  {
    hide Xor;
    forall i | 0 <= i < 16 ensures XorBlock(XorBlock(a, b), b)[i] == a[i] {
      XorLaws(a[i], b[i]);
    }
  }

  /** CBC decryption undoes CBC encryption under the same key and IV. */
  lemma {:induction false} CbcRoundTrip(iv: Block, m: seq<Octet>, key: Schedule)
    requires |m| % 16 == 0
    ensures CbcDecrypt(iv, CbcEncrypt(iv, m, key), key) == m
    decreases |m|
  {
    hide XorBlock, Encrypt, Decrypt;
    if m != [] {
      var x := XorBlock(m[..16], iv);
      var c: seq<Octet> := Encrypt(x, key);
      var rest: seq<Octet> := CbcEncrypt(c, m[16..], key);
      assert (c + rest)[..16] == c && (c + rest)[16..] == rest;
      DecryptEncrypt(x, key);
      XorBlockTwice(m[..16], iv);
      CbcRoundTrip(c, m[16..], key);
      assert m == m[..16] + m[16..];
    }
  }

  /** Encrypting in two calls, split at a block boundary, is encrypting in one. */
  lemma {:induction false} CbcEncryptSplit(iv: Block, m: seq<Octet>, n: seq<Octet>, key: Schedule)
    requires |m| % 16 == 0 && |n| % 16 == 0
    ensures var c := CbcEncrypt(iv, m, key); CbcEncrypt(iv, m + n, key) == c + CbcEncrypt(NextIv(iv, c), n, key)
    decreases |m|
  {
    hide XorBlock, Encrypt;
    if m == [] {
      assert m + n == n;
    } else {
      var c: seq<Octet> := Encrypt(XorBlock(m[..16], iv), key);
      var rest: seq<Octet> := CbcEncrypt(c, m[16..], key);
      assert (m + n)[..16] == m[..16] && (m + n)[16..] == m[16..] + n;
      CbcEncryptSplit(c, m[16..], n, key);
      assert NextIv(iv, c + rest) == NextIv(c, rest);
      assert c + rest + CbcEncrypt(NextIv(c, rest), n, key) == c + (rest + CbcEncrypt(NextIv(c, rest), n, key));
    }
  }

  lemma DecryptFirst(iv: Block, c: seq<Octet>, key: Schedule)
    requires |c| % 16 == 0 && c != []
    ensures CbcDecrypt(iv, c, key) == XorBlock(Decrypt(c[..16], key), iv) + CbcDecrypt(c[..16], c[16..], key)
  {
    hide XorBlock, Decrypt;
  }

  /** Decrypting in two calls, split at a block boundary, is decrypting in one. */
  lemma {:induction false} CbcDecryptSplit(iv: Block, c: seq<Octet>, d: seq<Octet>, key: Schedule)
    requires |c| % 16 == 0 && |d| % 16 == 0
    ensures CbcDecrypt(iv, c + d, key) == CbcDecrypt(iv, c, key) + CbcDecrypt(NextIv(iv, c), d, key)
    decreases |c|
  {
    hide XorBlock, Decrypt, CbcDecrypt;
    if c == [] {
      assert c + d == d && CbcDecrypt(iv, c, key) == [];
    } else {
      DecryptFirst(iv, c + d, key);
      DecryptFirst(iv, c, key);
      assert (c + d)[..16] == c[..16] && (c + d)[16..] == c[16..] + d;
      CbcDecryptSplit(c[..16], c[16..], d, key);
      assert NextIv(iv, c) == NextIv(c[..16], c[16..]);
      var p, q := XorBlock(Decrypt(c[..16], key), iv), CbcDecrypt(c[..16], c[16..], key);
      assert p + q + CbcDecrypt(NextIv(iv, c), d, key) == p + (q + CbcDecrypt(NextIv(iv, c), d, key));
    }
  }

  /** The first cipher block, and the others behind it. */
  lemma EncryptFirst(iv: Block, m: seq<Octet>, key: Schedule) returns (c: Block)
    requires |m| % 16 == 0 && m != []
    ensures c == Encrypt(XorBlock(m[..16], iv), key) && CbcEncrypt(iv, m, key) == c + CbcEncrypt(c, m[16..], key)
  {
    hide XorBlock, Encrypt;
    c := Encrypt(XorBlock(m[..16], iv), key);
  }

  /** Block i of the ciphertext is the encryption of block i of the message plus the ciphertext block before, or the IV. */
  lemma {:induction false} CbcBlock(iv: Block, m: seq<Octet>, key: Schedule, i: nat)
    requires |m| % 16 == 0 && i % 16 == 0 && i + 16 <= |m|
    ensures var c := CbcEncrypt(iv, m, key);
      Piece(c, i) == Encrypt(XorBlock(Piece(m, i), if i == 0 then iv else Piece(c, i - 16)), key)
    decreases |m|
  {
    hide XorBlock, Encrypt, CbcEncrypt, Piece;
    var c := EncryptFirst(iv, m, key);
    var rest := CbcEncrypt(c, m[16..], key);
    PieceFirst(c, rest);
    PieceFirst(m[..16], m[16..]);
    assert m == m[..16] + m[16..];
    if i > 0 {
      CbcBlock(c, m[16..], key, i - 16);
      PieceLater(c, rest, i);
      PieceLater(m[..16], m[16..], i);
      if i > 16 { PieceLater(c, rest, i - 16); }
    }
  }

  lemma PieceFirst(b: Block, rest: seq<Octet>)
    ensures Piece(b + rest, 0) == b
  {}

  lemma PieceLater(b: Block, rest: seq<Octet>, i: nat)
    requires 16 <= i <= |rest|
    ensures Piece(b + rest, i) == Piece(rest, i - 16)
  {}

  function Piece(m: seq<Octet>, i: nat): Block
    requires i + 16 <= |m|
  {
    m[i..i + 16]
  }

  /** One more block encrypted. */
  lemma CbcEncryptNext(iv: Block, m: seq<Octet>, i: nat, key: Schedule)
    requires i % 16 == 0 && i + 16 <= |m|
    ensures var c := CbcEncrypt(iv, m[..i], key);
      CbcEncrypt(iv, m[..i + 16], key) == c + Encrypt(XorBlock(Piece(m, i), NextIv(iv, c)), key)
  {
    hide XorBlock, Encrypt;
    var c, n := CbcEncrypt(iv, m[..i], key), m[i..i + 16];
    CbcEncryptSplit(iv, m[..i], n, key);
    assert m[..i] + n == m[..i + 16] && n[..16] == n;
    assert CbcEncrypt(NextIv(iv, c), n, key) == Encrypt(XorBlock(n, NextIv(iv, c)), key) + CbcEncrypt(NextIv(iv, c), [], key);
  }

  /** One more block decrypted. */
  lemma CbcDecryptNext(iv: Block, c: seq<Octet>, i: nat, key: Schedule)
    requires i % 16 == 0 && i + 16 <= |c|
    ensures CbcDecrypt(iv, c[..i + 16], key)
         == CbcDecrypt(iv, c[..i], key) + XorBlock(Decrypt(Piece(c, i), key), NextIv(iv, c[..i]))
  {
    hide XorBlock, Decrypt;
    var n := c[i..i + 16];
    CbcDecryptSplit(iv, c[..i], n, key);
    assert c[..i] + n == c[..i + 16] && n[..16] == n && n[16..] == [];
    assert CbcDecrypt(NextIv(iv, c[..i]), n, key) == XorBlock(Decrypt(n, key), NextIv(iv, c[..i])) + CbcDecrypt(n, [], key);
  }

  // ---- CTR, section 6.5 of SP 800-38A ----

  function Size(n: nat): (p: nat)
    ensures p >= 1
  {
    if n == 0 then 1 else 256 * Size(n - 1)
  }

  /** The byte string with one added to its last byte and the carry taken on to the bytes before. */
  function Succ(s: seq<Octet>): (r: seq<Octet>)
    ensures |r| == |s|
  {
    if s == [] then []
    else if s[|s| - 1].v == 255 then Succ(s[..|s| - 1]) + [NULL]
    else s[|s| - 1 := Increment(s[|s| - 1])]
  }

  /** The carry loop adds one modulo 256^n. */
  lemma {:induction false} SuccAddsOne(s: seq<Octet>)
    ensures Number(s) < Size(|s|)
    ensures Number(Succ(s)) == if Number(s) + 1 == Size(|s|) then 0 else Number(s) + 1
  {
    hide Value, Increment;
    if s != [] {
      var n := |s| - 1;
      SuccAddsOne(s[..n]);
      IncrementValue(s[n]);
      assert Succ(s)[..n] == if s[n].v == 255 then Succ(s[..n]) else s[..n];
    }
  }

  /** The counter block n steps after iv. */
  function Advance(iv: Block, n: nat): Block {
    if n == 0 then iv else Succ(Advance(iv, n - 1))
  }

  /** The counter is the IV plus the number of blocks, modulo 2^128. */
  lemma {:induction false} AdvanceAdds(iv: Block, n: nat)
    ensures Number(Advance(iv, n)) == (Number(iv) + n) % Size(16)
  {
    hide Number, Succ, Size;
    SuccAddsOne(iv);
    if n == 0 {
      SmallMod(Number(iv), Size(16));
    } else {
      AdvanceAdds(iv, n - 1);
      SuccAddsOne(Advance(iv, n - 1));
      StepMod(Number(iv) + n - 1, Size(16));
    }
  }

  lemma {:induction false} AdvanceTwice(iv: Block, m: nat, n: nat)
    ensures Advance(Advance(iv, m), n) == Advance(iv, m + n)
  {
    hide Succ;
    if n > 0 {
      AdvanceTwice(iv, m, n - 1);
    }
  }

  /** The mask of byte i. */
  function Stream(iv: Block, key: Schedule, i: nat): Octet {
    Encrypt(Advance(iv, i / 16), key)[i % 16]
  }

  function Ctr(iv: Block, m: seq<Octet>, key: Schedule): (c: seq<Octet>)
    ensures |c| == |m|
  {
    seq(|m|, i requires 0 <= i < |m| => Xor(m[i], Stream(iv, key, i)))
  }

  /** Counter blocks used up by n bytes. */
  function Blocks(n: nat): nat { (n + 15) / 16 }

  /** The same operation decrypts: under the same key and IV, twice is the identity for every length. */
  lemma CtrTwice(iv: Block, m: seq<Octet>, key: Schedule)
    ensures Ctr(iv, Ctr(iv, m, key), key) == m
  {
    hide Xor, Stream;
    forall i | 0 <= i < |m| ensures Ctr(iv, Ctr(iv, m, key), key)[i] == m[i] {
      XorLaws(m[i], Stream(iv, key, i));
    }
  }

  /** Byte i is masked with byte i % 16 of the encryption of the block whose number is that of the IV plus i / 16. */
  lemma CtrByte(iv: Block, m: seq<Octet>, key: Schedule, i: nat) returns (b: Block)
    requires i < |m|
    ensures Number(b) == (Number(iv) + i / 16) % Size(16) && Ctr(iv, m, key)[i] == Xor(m[i], Encrypt(b, key)[i % 16])
  {
    hide Xor, Encrypt, Number, Size;
    b := Advance(iv, i / 16);
    AdvanceAdds(iv, i / 16);
  }

  /** Two calls split at a block boundary are one. */
  lemma CtrSplit(iv: Block, m: seq<Octet>, n: seq<Octet>, key: Schedule)
    requires |m| % 16 == 0
    ensures Ctr(iv, m + n, key) == Ctr(iv, m, key) + Ctr(Advance(iv, Blocks(|m|)), n, key)
  {
    hide Xor, Encrypt, Advance;
    forall i | 0 <= i < |n| ensures Stream(iv, key, |m| + i) == Stream(Advance(iv, Blocks(|m|)), key, i) {
      AdvanceTwice(iv, |m| / 16, i / 16);
    }
  }
}
