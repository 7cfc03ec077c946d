/** The AES context in memory: key expansion, and the CBC and CTR modes on a buffer in place. */
module AesContext {
  import opened Octets
  import opened AesCipher
  import opened AesModes

  ghost function Word(s: seq<Octet>, w: nat): (r: seq<Octet>)
    requires 4 * w + 4 <= |s|
    ensures |r| == 4
  {
    s[4 * w..4 * w + 4]
  }

  ghost predicate WordFramed(before: seq<Octet>, now: seq<Octet>, w: nat) {
    |now| == |before| && forall k :: 0 <= k < |before| && !(4 * w <= k < 4 * w + 4) ==> now[k] == before[k]
  }

  lemma TurnedWord(w: seq<Octet>, i: nat)
    requires |w| == 4 && 8 <= i < 60
    ensures i % 8 == 0 ==> Turned(w, i, 0) == Xor(Sub(w[1]), Octet(Rcon(i / 8)))
    ensures i % 8 == 0 ==> Turned(w, i, 1) == Sub(w[2]) && Turned(w, i, 2) == Sub(w[3]) && Turned(w, i, 3) == Sub(w[0])
    ensures i % 8 == 4 ==> forall j | 0 <= j < 4 :: Turned(w, i, j) == Sub(w[j])
    ensures i % 8 != 0 && i % 8 != 4 ==> forall j | 0 <= j < 4 :: Turned(w, i, j) == w[j]
  {
    hide Xor, Sub, Rcon;
  }

  /** One round of the second loop of KeyExpansion. */
  method NextWord(roundKey: array<Octet>, i: nat)
    requires roundKey.Length == 240 && 8 <= i < 60
    modifies roundKey
    ensures forall j | 0 <= j < 4 ::
      Word(roundKey[..], i)[j] == Xor(Word(old(roundKey[..]), i - 8)[j], Turned(Word(old(roundKey[..]), i - 1), i, j))
    ensures WordFramed(old(roundKey[..]), roundKey[..], i)
  {
    hide Xor, Sub, Rcon, Turned;
    var k := 4 * (i - 1);
    var t0, t1, t2, t3 := roundKey[k], roundKey[k + 1], roundKey[k + 2], roundKey[k + 3];
    ghost var last, back := Word(roundKey[..], i - 1), Word(roundKey[..], i - 8);
    assert last == [t0, t1, t2, t3];
    TurnedWord(last, i);
    if i % 8 == 0 {
      t0, t1, t2, t3 := t1, t2, t3, t0;
      t0, t1, t2, t3 := Sub(t0), Sub(t1), Sub(t2), Sub(t3);
      t0 := Xor(t0, Octet(Rcon(i / 8)));
    }
    if i % 8 == 4 {
      t0, t1, t2, t3 := Sub(t0), Sub(t1), Sub(t2), Sub(t3);
    }
    assert t0 == Turned(last, i, 0) && t1 == Turned(last, i, 1) && t2 == Turned(last, i, 2) && t3 == Turned(last, i, 3);
    var j;
    j, k := 4 * i, 4 * (i - 8);
    roundKey[j] := Xor(roundKey[k], t0);
    roundKey[j + 1] := Xor(roundKey[k + 1], t1);
    roundKey[j + 2] := Xor(roundKey[k + 2], t2);
    roundKey[j + 3] := Xor(roundKey[k + 3], t3);
    assert Word(roundKey[..], i) == [Xor(back[0], t0), Xor(back[1], t1), Xor(back[2], t2), Xor(back[3], t3)];
  }

  /** The first loop of KeyExpansion: the key itself. */
  method CopyKey(roundKey: array<Octet>, key: array<Octet>)
    requires roundKey.Length == 240 && key.Length == 32 && roundKey != key
    modifies roundKey
    ensures roundKey[..32] == key[..]
  {
    var i := 0;
    while i < 8
      invariant 0 <= i <= 8
      invariant forall k :: 0 <= k < 4 * i ==> roundKey[k] == key[k]
    {
      roundKey[4 * i] := key[4 * i];
      roundKey[4 * i + 1] := key[4 * i + 1];
      roundKey[4 * i + 2] := key[4 * i + 2];
      roundKey[4 * i + 3] := key[4 * i + 3];
      i := i + 1;
    }
  }

  /** The first n words of s are those of the expanded key. */
  ghost predicate Words(s: seq<Octet>, key: Key, n: nat)
    requires n <= 60 && |s| == 240
  {
    forall k :: 0 <= k < 4 * n ==> s[k] == KeyWord(key, k / 4)[k % 4]
  }

  lemma WordsAt(s: seq<Octet>, key: Key, n: nat, w: nat)
    requires n <= 60 && |s| == 240 && Words(s, key, n) && w < n
    ensures Word(s, w) == KeyWord(key, w)
  {
    hide KeyWord;
    forall j | 0 <= j < 4 ensures s[4 * w..4 * w + 4][j] == KeyWord(key, w)[j] {
      Quotients(w, j);
    }
  }

  lemma WordsNext(before: seq<Octet>, now: seq<Octet>, key: Key, i: nat)
    requires |before| == 240 && 8 <= i < 60 && Words(before, key, i) && WordFramed(before, now, i)
    requires forall j | 0 <= j < 4 :: Word(now, i)[j] == Xor(Word(before, i - 8)[j], Turned(Word(before, i - 1), i, j))
    ensures Words(now, key, i + 1)
  {
    hide Xor, Turned, KeyWord;
    WordsAt(before, key, i, i - 1);
    WordsAt(before, key, i, i - 8);
    KeyWordStep(key, i);
    forall k | 4 * i <= k < 4 * i + 4 ensures now[k] == KeyWord(key, k / 4)[k % 4] {
      Quotients(i, k - 4 * i);
      assert now[k] == Word(now, i)[k - 4 * i];
    }
  }

  lemma KeyWordStep(key: Key, i: nat)
    requires 8 <= i < 60
    ensures forall j | 0 <= j < 4 :: KeyWord(key, i)[j] == Xor(KeyWord(key, i - 8)[j], Turned(KeyWord(key, i - 1), i, j))
  {}

  lemma Quotients(w: nat, j: nat)
    requires j < 4
    ensures (4 * w + j) / 4 == w && (4 * w + j) % 4 == j
  {}

  lemma FirstWords(s: seq<Octet>, key: Key)
    requires |s| == 240 && s[..32] == key
    ensures Words(s, key, 8)
  {
    forall k | 0 <= k < 32 ensures s[k] == KeyWord(key, k / 4)[k % 4] {
      assert s[k] == s[..32][k];
    }
  }

  /** KeyExpansion. */
  method ExpandKey(roundKey: array<Octet>, key: array<Octet>)
    requires roundKey.Length == 240 && key.Length == 32 && roundKey != key
    modifies roundKey
    ensures roundKey[..] == Expanded(key[..])
  {
    hide Xor, Turned, KeyWord, Words, WordFramed;
    CopyKey(roundKey, key);
    FirstWords(roundKey[..], key[..]);
    var i := 8;
    while i < 60
      invariant 8 <= i <= 60
      invariant Words(roundKey[..], key[..], i)
    {
      ghost var before := roundKey[..];
      NextWord(roundKey, i);
      WordsNext(before, roundKey[..], key[..], i);
      i := i + 1;
    }
    AllWords(roundKey[..], key[..]);
  }

  lemma AllWords(s: seq<Octet>, key: Key)
    requires |s| == 240 && Words(s, key, 60)
    ensures s == Expanded(key)
  {
    hide KeyWord;
  }

  lemma ExpandedWord(key: Key, w: nat)
    requires w < 60
    ensures Expanded(key)[4 * w..4 * w + 4] == KeyWord(key, w)
  {
    hide KeyWord;
    forall j | 0 <= j < 4 ensures Expanded(key)[4 * w..4 * w + 4][j] == KeyWord(key, w)[j] {
      Quotients(w, j);
    }
  }

  lemma ExpandedByte(key: Key, w: nat, j: nat)
    requires 8 <= w < 60 && j < 4
    ensures Expanded(key)[4 * w + j] == Xor(Expanded(key)[4 * w - 32 + j], Turned(Expanded(key)[4 * w - 4..4 * w], w, j))
  {
    hide Xor, KeyWord, Expanded, Turned;
    var e := Expanded(key);
    ExpandedWord(key, w - 1);
    ExpandedWord(key, w - 8);
    ExpandedWord(key, w);
    assert 4 * (w - 1) + 4 == 4 * w;
    KeyWordStep(key, w);
    assert e[4 * w + j] == e[4 * w..4 * w + 4][j] && e[4 * w - 32 + j] == e[4 * (w - 8)..4 * (w - 8) + 4][j];
  }

  /** The expanded key byte by byte: the key, and from then on each word is the one eight words back plus the previous one,
      which is turned and substituted at every eighth word and only substituted halfway between. */
  lemma ExpandedWords(key: Key, w: nat, j: nat)
    requires 8 <= w < 60 && j < 4
    ensures Expanded(key)[..32] == key
    ensures var e, n := Expanded(key), 4 * w;
      e[n + j] == Xor(e[n - 32 + j],
        if w % 8 == 0 then (if j == 0 then Xor(Sub(e[n - 3]), Octet(Rcon(w / 8))) else if j == 3 then Sub(e[n - 4]) else Sub(e[n - 3 + j]))
        else if w % 8 == 4 then Sub(e[n - 4 + j]) else e[n - 4 + j])
  {
    hide Xor, Sub, Rcon, Expanded, Turned;
    ExpandedByte(key, w, j);
    TurnedWord(Expanded(key)[4 * w - 4..4 * w], w);
    KeyInFront(key);
    assert j == 0 || j == 1 || j == 2 || j == 3;
  }

  lemma KeyInFront(key: Key)
    ensures Expanded(key)[..32] == key
  {
    hide KeyWord;
    forall k | 0 <= k < 32 ensures Expanded(key)[k] == key[k] {
      KeyItself(key, k / 4);
      assert key[4 * (k / 4)..4 * (k / 4) + 4][k % 4] == key[k];
    }
    assert Expanded(key)[..32] == key[..32] == key;
  }

  lemma KeyItself(key: Key, w: nat)
    requires w < 8
    ensures KeyWord(key, w) == key[4 * w..4 * w + 4]
  {}

  /** XorWithIv: the block at p is added the block of chain at q. */
  method XorWithIv(buf: array<Octet>, p: nat, chain: array<Octet>, q: nat)
    requires Region(buf, p) && Region(chain, q) && (buf == chain ==> q + 16 <= p)
    modifies buf
    ensures At(buf, p) == XorBlock(old(At(buf, p)), old(At(chain, q)))
    ensures Framed(old(buf[..]), buf[..], p)
  {
    hide Xor;
    for i := 0 to 16
      invariant forall k :: 0 <= k < buf.Length ==>
        buf[k] == if p <= k < p + i then Xor(old(buf[k]), old(chain[q + (k - p)])) else old(buf[k])
    {
      buf[p + i] := Xor(buf[p + i], chain[q + i]);
    }
  }

  /** memcpy of one block into the IV. */
  method CopyBlock(to: array<Octet>, from: array<Octet>, q: nat)
    requires to.Length == 16 && Region(from, q)
    modifies to
    ensures to[..] == old(At(from, q))
  {
    for i := 0 to 16
      invariant forall k :: 0 <= k < 16 ==> to[k] == if k < i then old(from[q + k]) else old(to[k])
    {
      to[i] := from[q + i];
    }
  }

  ghost predicate Distinct(a: array<Octet>, b: array<Octet>, c: array<Octet>) {
    a != b && a != c && b != c
  }

  /** What a step at block i leaves: the blocks before it as they were, then the new block, and nothing new after it. */
  lemma Stepped(before: seq<Octet>, now: seq<Octet>, i: nat)
    requires Framed(before, now, i) && i + 16 <= |before|
    ensures now[..i + 16] == before[..i] + now[i..i + 16] && now[i + 16..] == before[i + 16..]
  {}

  /** struct AES_ctx: the round keys and the IV, both updated in place. */
  class Context {
    const roundKey: array<Octet>
    const iv: array<Octet>

    ghost predicate Valid() {
      roundKey.Length == 240 && iv.Length == 16 && roundKey != iv
    }

    ghost function Keys(): Schedule
      requires Valid()
      reads roundKey
    {
      roundKey[..]
    }

    ghost function Iv(): Block
      requires Valid()
      reads iv
    {
      iv[..]
    }

    /** AES_init_ctx_iv on a fresh context. */
    constructor (key: array<Octet>, start: array<Octet>)
      requires key.Length == 32 && start.Length == 16
      ensures Valid() && fresh(roundKey) && fresh(iv)
      ensures Keys() == Expanded(key[..]) && Iv() == start[..]
    {
      roundKey := new Octet[240](_ => NULL);
      iv := new Octet[16](_ => NULL);
      new;
      ExpandKey(roundKey, key);
      CopyBlock(iv, start, 0);
    }

    /** AES_ctx_set_iv. */
    method SetIv(start: array<Octet>)
      requires Valid() && start.Length == 16 && start != roundKey
      modifies iv
      ensures Iv() == old(start[..]) && Keys() == old(Keys())
    {
      CopyBlock(iv, start, 0);
    }

    /** AES_CBC_encrypt_buffer: the first length bytes are encrypted, and the IV moves on to the last block. */
    method CbcEncryptBuffer(buf: array<Octet>, length: nat)
      requires Valid() && Distinct(buf, iv, roundKey) && length % 16 == 0 && length <= buf.Length
      modifies buf, iv
      ensures buf[..length] == CbcEncrypt(old(Iv()), old(buf[..length]), Keys())
      ensures Iv() == NextIv(old(Iv()), buf[..length])
      ensures buf[length..] == old(buf[length..])
    {
      hide CbcEncrypt, XorBlock, Encrypt;
      var chain, q := iv, 0;
      var i := 0;
      ghost var key, start, m := Keys(), Iv(), buf[..];
      while i < length
        invariant 0 <= i <= length && i % 16 == 0
        invariant if i == 0 then chain == iv && q == 0 else chain == buf && q == i - 16
        invariant Iv() == start && Keys() == key
        invariant buf[..i] == CbcEncrypt(start, m[..i], key)
        invariant buf[i..] == m[i..]
      {
        ghost var before := buf[..];
        assert At(buf, i) == Piece(m, i) by { assert buf[i..][..16] == m[i..][..16]; }
        assert At(chain, q) == NextIv(start, before[..i]);
        XorWithIv(buf, i, chain, q);
        Cipher(buf, i, roundKey);
        CbcEncryptNext(start, m, i, key);
        Stepped(before, buf[..], i);
        assert m[i..][16..] == m[i + 16..] && before[i..][16..] == before[i + 16..];
        chain, q := buf, i;
        i := i + 16;
      }
      assert buf[..length] == CbcEncrypt(start, m[..length], key);
      assert At(chain, q) == NextIv(start, buf[..length]);
      CopyBlock(iv, chain, q);
    }

    /** AES_CBC_decrypt_buffer: the first length bytes are decrypted, and the IV moves on to the last cipher block. */
    method CbcDecryptBuffer(buf: array<Octet>, length: nat)
      requires Valid() && Distinct(buf, iv, roundKey) && length % 16 == 0 && length <= buf.Length
      modifies buf, iv
      ensures buf[..length] == CbcDecrypt(old(Iv()), old(buf[..length]), Keys())
      ensures Iv() == NextIv(old(Iv()), old(buf[..length]))
      ensures buf[length..] == old(buf[length..])
    {
      hide CbcDecrypt, XorBlock, Decrypt;
      var storeNextIv := new Octet[16](_ => NULL);
      var i := 0;
      ghost var key, start, c := Keys(), Iv(), buf[..];
      while i < length
        invariant 0 <= i <= length && i % 16 == 0
        invariant Iv() == NextIv(start, c[..i]) && Keys() == key
        invariant buf[..i] == CbcDecrypt(start, c[..i], key)
        invariant buf[i..] == c[i..]
      {
        ghost var before := buf[..];
        assert At(buf, i) == Piece(c, i) by { assert buf[i..][..16] == c[i..][..16]; }
        CopyBlock(storeNextIv, buf, i);
        InvCipher(buf, i, roundKey);
        assert At(iv, 0) == Iv();
        XorWithIv(buf, i, iv, 0);
        CopyBlock(iv, storeNextIv, 0);
        CbcDecryptNext(start, c, i, key);
        Stepped(before, buf[..], i);
        assert c[i..][16..] == c[i + 16..] && before[i..][16..] == before[i + 16..];
        assert NextIv(start, c[..i + 16]) == Piece(c, i);
        i := i + 16;
      }
    }

    /** The loop of AES_CTR_xcrypt_buffer that increments the IV. */
    method IncrementIv()
      requires Valid()
      modifies iv
      ensures Iv() == Succ(old(Iv()))
    {
      hide Increment;
      ghost var s := Iv();
      var bi := 15;
      assert s[..16] == s && iv[16..] == [];
      while bi >= 0
        invariant -1 <= bi <= 15
        invariant forall k :: bi < k < 16 ==> iv[k] == NULL
        invariant iv[..bi + 1] == s[..bi + 1]
        invariant Succ(s) == Succ(s[..bi + 1]) + iv[bi + 1..]
      {
        assert s[..bi + 1][..bi] == s[..bi] && s[..bi + 1][bi] == s[bi] == iv[bi];
        if iv[bi].v == 255 {
          ghost var tail := iv[bi + 1..];
          iv[bi] := NULL;
          assert iv[bi..] == [NULL] + tail;
          bi := bi - 1;
        } else {
          ghost var tail := iv[bi + 1..];
          iv[bi] := Increment(iv[bi]);
          assert iv[..] == s[..bi + 1][bi := Increment(s[bi])] + tail;
          return;
        }
      }
      assert s[..0] == [] && iv[0..] == iv[..];
    }

    /** AES_CTR_xcrypt_buffer: the first length bytes are masked, and the IV moves on by the blocks used. */
    method CtrXcryptBuffer(buf: array<Octet>, length: nat)
      requires Valid() && Distinct(buf, iv, roundKey) && length <= buf.Length
      modifies buf, iv
      ensures buf[..length] == Ctr(old(Iv()), old(buf[..length]), Keys())
      ensures Iv() == Advance(old(Iv()), Blocks(length))
      ensures buf[length..] == old(buf[length..])
    {
      hide Xor, Encrypt, Advance;
      var buffer := new Octet[16](_ => NULL);
      ghost var key, start := Keys(), Iv();
      AdvanceZero(start);
      var i, bi := 0, 16;
      while i < length
        invariant 0 <= i <= length
        invariant if i % 16 == 0 then bi == 16 else bi == i % 16 && buffer[..] == Encrypt(Advance(start, i / 16), key)
        invariant Iv() == Advance(start, Blocks(i)) && Keys() == key
        invariant forall k :: 0 <= k < buf.Length ==>
          buf[k] == if k < i then Xor(old(buf[k]), Stream(start, key, k)) else old(buf[k])
      {
        if bi == 16 {
          CopyBlock(buffer, iv, 0);
          assert At(buffer, 0) == buffer[..] && At(iv, 0) == Iv();
          Cipher(buffer, 0, roundKey);
          assert At(buffer, 0) == buffer[..];
          IncrementIv();
          AdvanceNext(start, i / 16);
          bi := 0;
        }
        buf[i] := Xor(buf[i], buffer[bi]);
        i, bi := i + 1, bi + 1;
      }
    }
  }

  lemma AdvanceZero(iv: Block)
    ensures Advance(iv, 0) == iv
  {}

  lemma AdvanceNext(iv: Block, n: nat)
    ensures Succ(Advance(iv, n)) == Advance(iv, n + 1)
  {}
}
