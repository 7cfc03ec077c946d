/** hqc.c and kem.c: why decryption sees a codeword with a small error, and what decapsulation returns. */
module HqcKem {
  import opened Words64
  import opened CyclicRing

  type Bytes = seq<bv8>

  /** VEC_N1N2_SIZE_64: the 17664 bits of a code word fill 276 words exactly. */
  const CODE_WORDS := 276
  const CODE_BITS := 17664
  const SECRET_BYTES := 64
  const HASH_BYTES := 64

  type CodeVec = v: seq<Word> | |v| == CODE_WORDS witness seq(CODE_WORDS, i => Zero())

  /** The parts taken as functions: the code, the hash functions and the samplers. */
  datatype Scheme = Scheme(
    encode: Bytes -> CodeVec,
    decode: CodeVec -> Bytes,
    hashG: Bytes -> Bytes,
    hashH: Bytes -> Bytes,
    hashK: (Bytes, Vec, CodeVec) -> Bytes,
    randomness: Bytes -> (Vec, Vec, Vec),
    publicVector: Bytes -> Vec,
    secretVectors: Bytes -> (Vec, Vec))

  /** Hashes and shared secrets have 64 bytes. */
  ghost predicate Lengths(p: Scheme) {
    && (forall m, u, v :: |p.hashK(m, u, v)| == SECRET_BYTES)
    && (forall m :: |p.hashH(m)| == HASH_BYTES)
  }

  datatype PublicKey = PublicKey(seed: Bytes, s: Vec)
  datatype SecretKey = SecretKey(seed: Bytes, pk: PublicKey)
  datatype Ciphertext = Ciphertext(u: Vec, v: CodeVec, d: Bytes)

  // ---- vect_resize and vect_compare

  /** vect_resize to the longer length: the new word is zero. */
  function Widen(v: CodeVec): (w: Vec) { v + [Zero()] }

  /** vect_resize to the shorter length; it is a multiple of 64, so no bit is masked. */
  function Narrow(w: Vec): (v: CodeVec) { w[..CODE_WORDS] }

  lemma NarrowBit(w: Vec, k: int)
    ensures BitOf(Narrow(w), k) == (k < CODE_BITS && BitOf(w, k))
  {}

  lemma WidenBit(v: CodeVec, k: int)
    ensures BitOf(Widen(v), k) == BitOf(v, k)
    ensures Short(Widen(v))
  {}

  /** The eight bits as a byte, the first the lowest. */
  function Byte8(b0: bool, b1: bool, b2: bool, b3: bool, b4: bool, b5: bool, b6: bool, b7: bool): bv8 {
    Mark(b0, 1) | Mark(b1, 2) | Mark(b2, 4) | Mark(b3, 8) | Mark(b4, 16) | Mark(b5, 32) | Mark(b6, 64) | Mark(b7, 128)
  }

  function Mark(b: bool, m: bv8): bv8 { if b then m else 0 }

  lemma ByteBits(b0: bool, b1: bool, b2: bool, b3: bool, b4: bool, b5: bool, b6: bool, b7: bool)
    ensures var x := Byte8(b0, b1, b2, b3, b4, b5, b6, b7);
      && b0 == (x & 1 != 0) && b1 == (x & 2 != 0) && b2 == (x & 4 != 0) && b3 == (x & 8 != 0)
      && b4 == (x & 16 != 0) && b5 == (x & 32 != 0) && b6 == (x & 64 != 0) && b7 == (x & 128 != 0)
  {}

  /** Byte j of a word. */
  function WordByte(w: Word, j: nat): bv8
    requires j < 8
  {
    Byte8(w[8 * j], w[8 * j + 1], w[8 * j + 2], w[8 * j + 3], w[8 * j + 4], w[8 * j + 5], w[8 * j + 6], w[8 * j + 7])
  }

  /** The vector seen as an array of bytes. */
  function BytesIn(v: seq<Word>): (b: Bytes)
    ensures |b| == 8 * |v|
  {
    seq(8 * |v|, k requires 0 <= k < 8 * |v| => WordByte(v[k / 8], k % 8))
  }

  lemma SameMarks(a0: bool, a1: bool, a2: bool, a3: bool, a4: bool, a5: bool, a6: bool, a7: bool,
                  b0: bool, b1: bool, b2: bool, b3: bool, b4: bool, b5: bool, b6: bool, b7: bool)
    requires Byte8(a0, a1, a2, a3, a4, a5, a6, a7) == Byte8(b0, b1, b2, b3, b4, b5, b6, b7)
    ensures a0 == b0 && a1 == b1 && a2 == b2 && a3 == b3 && a4 == b4 && a5 == b5 && a6 == b6 && a7 == b7
  {
    hide Byte8;
    ByteBits(a0, a1, a2, a3, a4, a5, a6, a7);
    ByteBits(b0, b1, b2, b3, b4, b5, b6, b7);
  }

  lemma SameByte(x: Word, y: Word, j: nat)
    requires j < 8 && WordByte(x, j) == WordByte(y, j)
    ensures forall i :: 8 * j <= i < 8 * j + 8 ==> x[i] == y[i]
  {
    hide Byte8;
    SameMarks(x[8 * j], x[8 * j + 1], x[8 * j + 2], x[8 * j + 3], x[8 * j + 4], x[8 * j + 5], x[8 * j + 6], x[8 * j + 7],
              y[8 * j], y[8 * j + 1], y[8 * j + 2], y[8 * j + 3], y[8 * j + 4], y[8 * j + 5], y[8 * j + 6], y[8 * j + 7]);
  }

  /** Equal bytes mean equal words. */
  lemma BytesDetermine(a: seq<Word>, b: seq<Word>)
    requires |a| == |b|
    ensures BytesIn(a) == BytesIn(b) <==> a == b
  {
    hide WordByte;
    if BytesIn(a) == BytesIn(b) {
      forall i | 0 <= i < |a|
        ensures a[i] == b[i]
      {
        forall j | 0 <= j < 8
          ensures WordByte(a[i], j) == WordByte(b[i], j)
        {
          assert BytesIn(a)[8 * i + j] == BytesIn(b)[8 * i + j];
        }
        SameWord(a[i], b[i]);
      }
    }
  }

  lemma SameWord(x: Word, y: Word)
    requires forall j :: 0 <= j < 8 ==> WordByte(x, j) == WordByte(y, j)
    ensures x == y
  {
    hide WordByte;
    forall i | 0 <= i < BITS
      ensures x[i] == y[i]
    {
      SameByte(x, y, i / 8);
    }
  }

  /** The sign bit of the two's complement negation tells zero from the other bytes. */
  lemma NegationSign(r: bv64)
    requires r <= 0xFF
    ensures (!r + 1) >> 63 == if r == 0 then 0 else 1
  {}

  lemma Collected(r: bv64, x: bv8, y: bv8)
    requires r <= 0xFF
    ensures r | ((x ^ y) as bv64) <= 0xFF
    ensures r | ((x ^ y) as bv64) == 0 <==> r == 0 && x == y
  {}

  /** vect_compare: the differences are collected, 0 for equal bytes, 1 otherwise. */
  method VectCompare(v1: Bytes, v2: Bytes, size: nat) returns (r: bv8)
    requires size <= |v1| && size <= |v2|
    ensures r == if v1[..size] == v2[..size] then 0 else 1
  {
    var diff: bv64 := 0;
    var i := 0;
    while i < size
      invariant 0 <= i <= size && diff <= 0xFF
      invariant diff == 0 <==> v1[..i] == v2[..i]
    {
      Collected(diff, v1[i], v2[i]);
      assert v1[..i + 1] == v1[..i] + [v1[i]] && v2[..i + 1] == v2[..i] + [v2[i]];
      diff := diff | ((v1[i] ^ v2[i]) as bv64);
      i := i + 1;
    }
    NegationSign(diff);
    r := ((!diff + 1) >> 63) as bv8;
  }

  lemma WholeBytes(a: seq<Word>, b: seq<Word>)
    requires |a| == |b|
    ensures BytesIn(a)[..8 * |a|] == BytesIn(b)[..8 * |b|] <==> a == b
  {
    hide BytesIn;
    assert BytesIn(a)[..8 * |a|] == BytesIn(a) && BytesIn(b)[..8 * |b|] == BytesIn(b);
    BytesDetermine(a, b);
  }

  /** Where the bits beyond these bytes are clear on both sides, comparing the 2209 bytes is comparing all. */
  lemma ComparedBytes(a: Vec, b: Vec)
    requires forall k :: 8 * VECTOR_BYTES <= k < BITS * WORDS ==> !BitOf(a, k) && !BitOf(b, k)
    ensures BytesIn(a)[..VECTOR_BYTES] == BytesIn(b)[..VECTOR_BYTES] <==> a == b
  {
    hide WordByte, BitOf;
    if BytesIn(a)[..VECTOR_BYTES] == BytesIn(b)[..VECTOR_BYTES] {
      forall k | 0 <= k < 8 * WORDS
        ensures BytesIn(a)[k] == BytesIn(b)[k]
      {
        if k < VECTOR_BYTES {
          assert BytesIn(a)[..VECTOR_BYTES][k] == BytesIn(b)[..VECTOR_BYTES][k];
        } else {
          ClearByte(a, k);
          ClearByte(b, k);
        }
      }
      BytesDetermine(a, b);
    }
  }

  lemma ClearByte(a: Vec, k: nat)
    requires k < 8 * WORDS && forall i :: 8 * k <= i < 8 * k + 8 ==> !BitOf(a, i)
    ensures BytesIn(a)[k] == Byte8(false, false, false, false, false, false, false, false)
  {
    hide Byte8;
    forall i | 8 * (k % 8) <= i < 8 * (k % 8) + 8
      ensures !a[k / 8][i]
    {
      BitInByte(k, i - 8 * (k % 8));
      assert !BitOf(a, 8 * k + (i - 8 * (k % 8)));
    }
  }

  lemma BitInByte(k: nat, i: nat)
    requires i < 8
    ensures (8 * k + i) / BITS == k / 8 && (8 * k + i) % BITS == 8 * (k % 8) + i
  {}

  // ---- the public-key scheme

  function KeyS(p: Scheme, seed: Bytes, pkSeed: Bytes): Vec
  {
    Add(p.secretVectors(seed).0, Folded(p.secretVectors(seed).1, p.publicVector(pkSeed)))
  }

  method PkeKeygen(p: Scheme, skSeed: Bytes, pkSeed: Bytes) returns (pk: PublicKey, sk: SecretKey)
    ensures sk == KeyOf(p, skSeed, pkSeed) && pk == sk.pk
  {
    hide Folded, Add;
    var (x, y) := p.secretVectors(skSeed);
    var h := p.publicVector(pkSeed);
    var s := VectMul(y, h);
    s := VectAdd(x, s);
    pk := PublicKey(pkSeed, s);
    sk := SecretKey(skSeed, pk);
  }

  /** The key pair of two seeds. */
  function KeyOf(p: Scheme, skSeed: Bytes, pkSeed: Bytes): (sk: SecretKey) {
    SecretKey(skSeed, PublicKey(pkSeed, KeyS(p, skSeed, pkSeed)))
  }

  /** The ciphertext of m under the randomness of theta. */
  function Encrypt(p: Scheme, m: Bytes, theta: Bytes, pk: PublicKey): (Vec, CodeVec) {
    var (r1, r2, e) := p.randomness(theta);
    var h := p.publicVector(pk.seed);
    (Add(r1, Folded(r2, h)),
     Narrow(Add(Add(e, Folded(r2, pk.s)), Widen(p.encode(m)))))
  }

  method PkeEncrypt(p: Scheme, m: Bytes, theta: Bytes, pk: PublicKey) returns (u: Vec, v: CodeVec)
    ensures (u, v) == Encrypt(p, m, theta, pk)
  {
    hide Folded, Add;
    var (r1, r2, e) := p.randomness(theta);
    var h, s := p.publicVector(pk.seed), pk.s;
    u := VectMul(r2, h);
    u := VectAdd(r1, u);
    v := p.encode(m);
    var tmp1 := Widen(v);
    var tmp2 := VectMul(r2, s);
    tmp2 := VectAdd(e, tmp2);
    AddComm(tmp1, tmp2);
    tmp2 := VectAdd(tmp1, tmp2);
    v := Narrow(tmp2);
  }

  /** The word handed to the decoder. */
  function DecoderInput(p: Scheme, u: Vec, v: CodeVec, sk: SecretKey): Vec {
    Add(Folded(p.secretVectors(sk.seed).1, u), Widen(v))
  }

  function Decrypt(p: Scheme, u: Vec, v: CodeVec, sk: SecretKey): Bytes {
    p.decode(Narrow(DecoderInput(p, u, v, sk)))
  }

  method PkeDecrypt(p: Scheme, u: Vec, v: CodeVec, sk: SecretKey) returns (m: Bytes)
    ensures m == Decrypt(p, u, v, sk)
  {
    hide Folded, Add;
    var (x, y) := p.secretVectors(sk.seed);
    var tmp1 := Widen(v);
    var tmp2 := VectMul(y, u);
    tmp2 := VectAdd(tmp2, tmp1);
    m := p.decode(Narrow(tmp2));
  }

  lemma AddComm(a: Vec, b: Vec)
    ensures Add(a, b) == Add(b, a)
  {
    hide BitOf, Add;
    forall k | 0 <= k < BITS * WORDS ensures BitOf(Add(a, b), k) == BitOf(Add(b, a), k) {
      AddBit(a, b, k);
      AddBit(b, a, k);
    }
    SameBits(Add(a, b), Add(b, a));
  }

  /** x*r2 + r1*y + e. */
  ghost function Noise(x: Vec, y: Vec, r1: Vec, r2: Vec, e: Vec): Vec {
    Add(Add(Times(x, r2), Times(r1, y)), e)
  }

  /** The ring identity: y*(r1 + r2*h) cancels r2*(x + y*h) up to the noise, bit by bit. */
  lemma RingIdentity(x: Vec, y: Vec, h: Vec, r1: Vec, r2: Vec, e: Vec, k: int)
    requires Short(x) && Short(y) && Short(h) && Short(r1) && Short(r2) && Short(e)
    ensures BitOf(Times(y, Add(r1, Times(r2, h))), k)
         == ((BitOf(e, k) != BitOf(Times(r2, Add(x, Times(y, h))), k)) != BitOf(Noise(x, y, r1, r2, e), k))
  {
    hide BitOf, Times, Add, Short;
    TimesAdd(y, r1, Times(r2, h));
    TimesAdd(r2, x, Times(y, h));
    TimesExchange(y, r2, h);
    TimesComm(r2, x);
    TimesComm(r1, y);
    AddBit(Times(y, r1), Times(y, Times(r2, h)), k);
    AddBit(Times(r2, x), Times(r2, Times(y, h)), k);
    AddBit(Times(x, r2), Times(r1, y), k);
    AddBit(Add(Times(x, r2), Times(r1, y)), e, k);
  }

  /** The vectors behind a key pair and an encryption. */
  datatype Secrets = Secrets(x: Vec, y: Vec, h: Vec, r1: Vec, r2: Vec, e: Vec)

  function SecretsOf(p: Scheme, theta: Bytes, sk: SecretKey): Secrets {
    var (x, y) := p.secretVectors(sk.seed);
    var (r1, r2, e) := p.randomness(theta);
    Secrets(x, y, p.publicVector(sk.pk.seed), r1, r2, e)
  }

  /** No vector has a bit from X^N on. */
  ghost predicate AllShort(t: Secrets) {
    Short(t.x) && Short(t.y) && Short(t.h) && Short(t.r1) && Short(t.r2) && Short(t.e)
  }

  ghost predicate HonestKey(p: Scheme, sk: SecretKey) {
    sk.pk.s == KeyS(p, sk.seed, sk.pk.seed)
  }

  ghost function NoiseOf(p: Scheme, theta: Bytes, sk: SecretKey): Vec {
    var t := SecretsOf(p, theta, sk);
    Noise(t.x, t.y, t.r1, t.r2, t.e)
  }

  /** Decryption hands the decoder the codeword plus x*r2 + r1*y + e on the first 17664 bits. */
  lemma DecoderSees(p: Scheme, m: Bytes, theta: Bytes, sk: SecretKey, k: int)
    requires AllShort(SecretsOf(p, theta, sk)) && HonestKey(p, sk) && 0 <= k < CODE_BITS
    ensures var (u, v) := Encrypt(p, m, theta, sk.pk);
      BitOf(Narrow(DecoderInput(p, u, v, sk)), k)
         == (BitOf(p.encode(m), k) != BitOf(NoiseOf(p, theta, sk), k))
  {
    hide BitOf, Times, Add, Short, Folded, Noise, Widen, Narrow;
    var t := SecretsOf(p, theta, sk);
    var x, y, h, r1, r2, e := t.x, t.y, t.h, t.r1, t.r2, t.e;
    var (u, v) := Encrypt(p, m, theta, sk.pk);
    var s, c := sk.pk.s, Widen(p.encode(m));
    ShortProduct(y, h);
    ShortProduct(r2, h);
    AddShort(x, Times(y, h));
    AddShort(r1, Times(r2, h));
    ShortProduct(r2, s);
    ShortProduct(y, u);
    var w := Add(Add(e, Times(r2, s)), c);
    NarrowBit(DecoderInput(p, u, v, sk), k);
    AddBit(Times(y, u), Widen(v), k);
    WidenBit(v, k);
    NarrowBit(w, k);
    AddBit(Add(e, Times(r2, s)), c, k);
    AddBit(e, Times(r2, s), k);
    WidenBit(p.encode(m), k);
    RingIdentity(x, y, h, r1, r2, e, k);
  }

  lemma ShortProduct(a: Vec, b: Vec)
    requires Short(a) && Short(b)
    ensures Folded(a, b) == Times(a, b) && Short(Times(a, b))
  {
    hide BitOf, Times, Folded, Short;
    FoldedIsTimes(a, b);
    TimesBit(a, b, 0);
  }

  /** The decoder corrects the error pattern n on the code word of m. */
  ghost predicate Corrects(p: Scheme, m: Bytes, n: Vec) {
    forall w: CodeVec :: (forall k :: 0 <= k < CODE_BITS ==> BitOf(w, k) == (BitOf(p.encode(m), k) != BitOf(n, k))) ==> p.decode(w) == m
  }

  lemma DecryptsTo(p: Scheme, m: Bytes, theta: Bytes, sk: SecretKey)
    requires AllShort(SecretsOf(p, theta, sk)) && HonestKey(p, sk) && Corrects(p, m, NoiseOf(p, theta, sk))
    ensures var (u, v) := Encrypt(p, m, theta, sk.pk); Decrypt(p, u, v, sk) == m
  {
    hide BitOf, DecoderInput, Encrypt, AllShort, SecretsOf, HonestKey, Narrow, NoiseOf;
    var (u, v) := Encrypt(p, m, theta, sk.pk);
    var w := Narrow(DecoderInput(p, u, v, sk));
    forall k | 0 <= k < CODE_BITS
      ensures BitOf(w, k) == (BitOf(p.encode(m), k) != BitOf(NoiseOf(p, theta, sk), k))
    {
      DecoderSees(p, m, theta, sk, k);
    }
  }

  // ---- the key encapsulation

  /** crypto_kem_enc: u and v by derandomised encryption, d = H(m), and the secret K(m, u, v). */
  method KemEnc(p: Scheme, m: Bytes, pk: PublicKey) returns (ct: Ciphertext, ss: Bytes)
    ensures (ct.u, ct.v) == Encrypt(p, m, p.hashG(m), pk) && ct.d == p.hashH(m)
    ensures ss == p.hashK(m, ct.u, ct.v)
  {
    hide Encrypt;
    var theta := p.hashG(m);
    var u, v := PkeEncrypt(p, m, theta, pk);
    var d := p.hashH(m);
    ss := p.hashK(m, u, v);
    ct := Ciphertext(u, v, d);
  }

  /** The message that decryption finds in ct. */
  function Found(p: Scheme, ct: Ciphertext, sk: SecretKey): Bytes { Decrypt(p, ct.u, ct.v, sk) }

  /** crypto_kem_dec accepts exactly the ciphertexts whose u and v re-encrypting the message found reproduces, and whose d is its hash. */
  method KemDec(p: Scheme, ct: Ciphertext, sk: SecretKey) returns (ss: Bytes, result: int)
    requires Lengths(p) && |ct.d| == HASH_BYTES
    ensures result == 0 || result == -1
    ensures var m := Found(p, ct, sk);
      result == 0 <==> (ct.u, ct.v) == Encrypt(p, m, p.hashG(m), sk.pk) && ct.d == p.hashH(m)
    ensures result == 0 ==> ss == p.hashK(Found(p, ct, sk), ct.u, ct.v)
    ensures result == -1 ==> ss == seq(SECRET_BYTES, i => 0)
  {
    hide Encrypt, Decrypt;
    var m := PkeDecrypt(p, ct.u, ct.v, sk);
    var theta := p.hashG(m);
    var u2, v2 := PkeEncrypt(p, m, theta, sk.pk);
    var d2 := p.hashH(m);
    var secret := p.hashK(m, ct.u, ct.v);
    var r := VectCompare(BytesIn(ct.u), BytesIn(u2), 8 * WORDS);
    var r2 := VectCompare(BytesIn(ct.v), BytesIn(v2), 8 * CODE_WORDS);
    var r3 := VectCompare(ct.d, d2, HASH_BYTES);
    WholeBytes(ct.u, u2);
    WholeBytes(ct.v, v2);
    assert ct.d[..HASH_BYTES] == ct.d && d2[..HASH_BYTES] == d2;
    var flag := r | r2 | r3;
    var mask := SignMask(flag);
    ss := MaskSecret(secret, mask);
    result := if mask & 1 == 1 then -1 else 0;
  }

  /** ss[i] &= ~mask. */
  method MaskSecret(secret: Bytes, mask: bv8) returns (ss: Bytes)
    requires |secret| == SECRET_BYTES && (mask == 0 || mask == 0xFF)
    ensures ss == if mask == 0 then secret else seq(SECRET_BYTES, i => 0)
  {
    ss := [];
    var i := 0;
    while i < SECRET_BYTES
      invariant 0 <= i <= SECRET_BYTES && |ss| == i
      invariant forall j :: 0 <= j < i ==> ss[j] == if mask == 0 then secret[j] else 0
    {
      MaskByte(secret[i]);
      ss := ss + [secret[i] & !mask];
      i := i + 1;
    }
  }

  lemma MaskByte(b: bv8)
    ensures b & !0 == b && b & !0xFF == 0
  {}

  /** (uint8_t) (-((int16_t) r) >> 15) for r = 0 or 1. */
  method SignMask(r: bv8) returns (mask: bv8)
    requires r == 0 || r == 1
    ensures mask == if r == 0 then 0 else 0xFF
  {
    var w: bv16 := 0 - (r as bv16);
    mask := if w >> 15 == 1 then 0xFF else 0;
  }

  lemma HashLength(p: Scheme, m: Bytes)
    requires Lengths(p)
    ensures |p.hashH(m)| == HASH_BYTES
  {}

  /** Whenever the decoder corrects the noise, decapsulation returns 0 and the encapsulated secret. */
  method KemRoundTrip(p: Scheme, m: Bytes, skSeed: Bytes, pkSeed: Bytes) returns (ss1: Bytes, ss2: Bytes, result: int)
    requires Lengths(p) && AllShort(SecretsOf(p, p.hashG(m), KeyOf(p, skSeed, pkSeed)))
    requires Corrects(p, m, NoiseOf(p, p.hashG(m), KeyOf(p, skSeed, pkSeed)))
    ensures result == 0 && ss2 == ss1
  {
    hide Corrects, NoiseOf, Encrypt, Decrypt, KeyS, Lengths, AllShort, SecretsOf;
    var pk, sk := PkeKeygen(p, skSeed, pkSeed);
    var ct: Ciphertext;
    ct, ss1 := KemEnc(p, m, pk);
    DecryptsTo(p, m, p.hashG(m), sk);
    assert |ct.d| == HASH_BYTES by { HashLength(p, m); }
    ss2, result := KemDec(p, ct, sk);
  }
}
