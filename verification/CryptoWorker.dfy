/** crypto_worker.c: the key and the initial counters for AES, derived from the shared secret, and encryption in place. */
module CryptoWorker {
  import opened Octets
  import opened Protocol
  import AesCipher
  import AesModes
  import AesContext
  import Sponge
  import KeccakSponge

  const MODULUS := 0x1_0000_0000

  /** A uint32_t. */
  type Counter = x: int | 0 <= x < MODULUS

  /** What both ends hold once established: the shared secret, with the permutation inside SHAKE-256. */
  datatype Keys = Keys(f: Sponge.State -> Sponge.State, ss: seq<Octet>)

  lemma Digits(c: Counter)
    ensures c % 0x100 + 0x100 * (c / 0x100 % 0x100) + 0x1_0000 * (c / 0x1_0000 % 0x100) + 0x100_0000 * (c / 0x100_0000) == c
    ensures c / 0x100_0000 < 0x100
  {
    var c1, c2 := c / 0x100, c / 0x1_0000;
    assert c2 == c1 / 0x100 && c / 0x100_0000 == c2 / 0x100;
  }

  lemma OctetValue(x: Byte, a: Octet)
    ensures Value(OctetOf(x)) == x && OctetOf(Value(a)) == a
  {
    NumberBack(x);
    OctetBack(a);
  }

  function AesKey(k: Keys): (key: seq<Octet>)
    ensures |key| == 32
  {
    KeccakSponge.Shake256(k.f, k.ss, 32)
  }

  /** The counter's bytes behind the secret, most significant first. */
  function IvInput(k: Keys, c: Counter): seq<Octet> {
    k.ss + [OctetOf(c / 0x100_0000), OctetOf(c / 0x1_0000 % 0x100), OctetOf(c / 0x100 % 0x100), OctetOf(c % 0x100)]
  }

  /** The secret in front, and behind it the counter as a number of four bytes, most significant first. */
  lemma IvInputCounter(k: Keys, c: Counter)
    ensures |IvInput(k, c)| == |k.ss| + 4 && IvInput(k, c)[..|k.ss|] == k.ss && Number(IvInput(k, c)[|k.ss|..]) == c
  {
    hide Value, OctetOf;
    Digits(c);
    OctetValue(c / 0x100_0000, NULL);
    OctetValue(c / 0x1_0000 % 0x100, NULL);
    OctetValue(c / 0x100 % 0x100, NULL);
    OctetValue(c % 0x100, NULL);
    var b := IvInput(k, c)[|k.ss|..];
    FourBytes(b[0], b[1], b[2], b[3]);
    assert b == [b[0], b[1], b[2], b[3]];
  }

  lemma FourBytes(a: Octet, b: Octet, c: Octet, d: Octet)
    ensures Number([a, b, c, d]) == 0x100_0000 * Value(a) + 0x1_0000 * Value(b) + 0x100 * Value(c) + Value(d)
  {
    hide Value;
    assert [a][..0] == [] && [a, b][..1] == [a] && [a, b, c][..2] == [a, b] && [a, b, c, d][..3] == [a, b, c];
    assert Number([]) == 0 && Number([a]) == Value(a) && Number([a, b]) == 256 * Number([a]) + Value(b);
    assert Number([a, b, c]) == 256 * Number([a, b]) + Value(c);
  }

  /** Different counters are hashed from different inputs. */
  lemma IvInputInjective(k: Keys, c: Counter, d: Counter)
    requires IvInput(k, c) == IvInput(k, d)
    ensures c == d
  {
    IvInputCounter(k, c);
    IvInputCounter(k, d);
  }

  function Iv(k: Keys, c: Counter): (iv: seq<Octet>)
    ensures |iv| == 16
  {
    KeccakSponge.Shake256(k.f, IvInput(k, c), 16)
  }

  /** Encryption, and decryption, under counter c. */
  function Masked(k: Keys, c: Counter, data: seq<Octet>): (r: seq<Octet>)
    ensures |r| == |data|
  {
    AesModes.Ctr(Iv(k, c), data, AesModes.Expanded(AesKey(k)))
  }

  lemma MaskedTwice(k: Keys, c: Counter, data: seq<Octet>)
    ensures Masked(k, c, Masked(k, c, data)) == data
  {
    AesModes.CtrTwice(Iv(k, c), data, AesModes.Expanded(AesKey(k)));
  }

  /** Byte i goes over the air masked with byte i % 16 of an encrypted block: the key is hashed from the secret alone, the
      first block from the secret and the counter's four bytes d, and the block's number goes up by one every sixteen bytes. */
  lemma MaskedByte(k: Keys, c: Counter, d: seq<Octet>, data: seq<Octet>, i: nat) returns (b: AesCipher.Block)
    requires i < |data| && |d| == 4 && Number(d) == c
    ensures Number(b) == (Number(KeccakSponge.Shake256(k.f, k.ss + d, 16)) + i / 16) % AesModes.Size(16)
    ensures var key := AesModes.Expanded(KeccakSponge.Shake256(k.f, k.ss, 32));
      Masked(k, c, data)[i] == Xor(data[i], AesCipher.Encrypt(b, key)[i % 16])
  {
    hide Xor, AesCipher.Encrypt, Number, AesModes.Size, AesModes.Ctr, AesModes.Expanded, IvInput, KeccakSponge.Shake256;
    IvInputCounter(k, c);
    SameNumber(d, IvInput(k, c)[|k.ss|..]);
    assert IvInput(k, c) == k.ss + d;
    b := AesModes.CtrByte(Iv(k, c), data, AesModes.Expanded(AesKey(k)), i);
  }

  /** Byte strings of the same length stand for different numbers. */
  lemma {:induction false} SameNumber(a: seq<Octet>, b: seq<Octet>)
    requires |a| == |b| && Number(a) == Number(b)
    ensures a == b
  {
    hide Value, OctetOf;
    if a != [] {
      var n := |a| - 1;
      SameNumber(a[..n], b[..n]);
      OctetBack(a[n]);
      OctetBack(b[n]);
      assert a == a[..n] + [a[n]] && b == b[..n] + [b[n]];
    }
  }

  // ---- in place

  /** crypto_worker_derive_aes_key. */
  method DeriveAesKey(f: Sponge.State -> Sponge.State, ss: array<Octet>, aesKey: array<Octet>)
    requires aesKey.Length == 32 && aesKey != ss
    modifies aesKey
    ensures aesKey[..] == AesKey(Keys(f, ss[..]))
  {
    hide KeccakSponge.Shake256;
    KeccakSponge.OneShot(aesKey, 32, ss, f);
    assert aesKey[..32] == aesKey[..];
  }

  /** crypto_worker_derive_aes_iv. */
  method DeriveAesIv(f: Sponge.State -> Sponge.State, ss: array<Octet>, counter: Counter, iv: array<Octet>)
    requires iv.Length == 16 && iv != ss
    modifies iv
    ensures iv[..] == Iv(Keys(f, ss[..]), counter)
  {
    hide KeccakSponge.Shake256, OctetOf;
    var n := ss.Length;
    var input := new Octet[n + 4](_ => NULL);
    for i := 0 to n
      invariant input[..i] == ss[..i]
      modifies input
    {
      input[i] := ss[i];
    }
    input[n] := OctetOf(counter / 0x100_0000);
    input[n + 1] := OctetOf(counter / 0x1_0000 % 0x100);
    input[n + 2] := OctetOf(counter / 0x100 % 0x100);
    input[n + 3] := OctetOf(counter % 0x100);
    assert input[..] == IvInput(Keys(f, ss[..]), counter);
    KeccakSponge.OneShot(iv, 16, input, f);
    assert iv[..16] == iv[..];
  }

  /** crypto_worker_aes_ctr_xcrypt: the first length bytes are encrypted, or decrypted, under key and IV. */
  method CtrXcrypt(key: array<Octet>, iv: array<Octet>, buf: array<Octet>, length: nat)
    requires key.Length == 32 && iv.Length == 16 && length <= buf.Length
    modifies buf
    ensures buf[..length] == AesModes.Ctr(old(iv[..]), old(buf[..length]), AesModes.Expanded(old(key[..])))
    ensures buf[length..] == old(buf[length..])
  {
    hide AesModes.Ctr, AesModes.Expanded;
    if length == 0 {
      assert AesModes.Ctr(iv[..], [], AesModes.Expanded(key[..])) == [];
      return;
    }
    var context := new AesContext.Context(key, iv);
    context.CtrXcryptBuffer(buf, length);
  }
}
