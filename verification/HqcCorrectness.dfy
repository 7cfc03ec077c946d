/** The key encapsulation with its own code and samplers: when decapsulation returns the encapsulated secret. */
module HqcCorrectness {
  import opened HqcKem
  import opened CodeVectors
  import opened KeySampling
  import Berlekamp
  import Octets
  import Words64
  import Sponge
  import KeccakSponge
  import ShakeStreams
  import FixedWeight
  import CyclicRing
  import ReedSolomonEncoder
  import ConcatenatedCode

  /** The code of the scheme is the one of code.c: EncodeVector and DecodeVector compute such functions. */
  ghost predicate UsesCode(p: Scheme) {
    && (forall m: Bytes :: |m| == ReedSolomonEncoder.MESSAGE ==> ConcatenatedCode.Encodes(Copies(p.encode(m)), PolyOf(m)))
    && (forall w: CodeVec :: Decodes(w, p.decode(w)))
  }

  /** Every scheme can be given this code. */
  lemma CodeExists(p: Scheme)
    ensures UsesCode(p.(encode := (m: Bytes) => Encoded(m), decode := (w: CodeVec) => Decoded(w)))
  {
    hide ConcatenatedCode.Encodes, Copies, Decodes;
  }

  function OctetsOf(b: Bytes): (o: seq<Octets.Octet>) {
    seq(|b|, i requires 0 <= i < |b| => Octets.Octet(b[i]))
  }

  /** For these seeds the vectors of the scheme are drawn from the seed expander, as SampleSecrets, SamplePublic
      and SampleRandomness draw them. */
  ghost predicate UsesSamplers(p: Scheme, f: Sponge.State -> Sponge.State, skSeed: Bytes, pkSeed: Bytes, theta: Bytes) {
    && |theta| >= SEED_BYTES
    && Drew(f, Seeded(f, OctetsOf(skSeed)), [OMEGA, OMEGA], [p.secretVectors(skSeed).0, p.secretVectors(skSeed).1])
    && p.publicVector(pkSeed) == PublicVector(f, OctetsOf(pkSeed))
    && Drew(f, Seeded(f, OctetsOf(theta[..SEED_BYTES])), [FixedWeight.OMEGA_R, FixedWeight.OMEGA_R, OMEGA_E],
            [p.randomness(theta).0, p.randomness(theta).1, p.randomness(theta).2])
  }

  /** Wherever the seed expanders hold enough positions, the scheme can be given vectors drawn from them; all else is kept. */
  lemma SamplersExist(p: Scheme, f: Sponge.State -> Sponge.State, skSeed: Bytes, pkSeed: Bytes, theta: Bytes,
                      secretLimits: seq<nat>, randomLimits: seq<nat>)
    returns (q: Scheme)
    requires |theta| >= SEED_BYTES
    requires Plenty(f, Seeded(f, OctetsOf(skSeed)), [OMEGA, OMEGA], secretLimits)
    requires Plenty(f, Seeded(f, OctetsOf(theta[..SEED_BYTES])), [FixedWeight.OMEGA_R, FixedWeight.OMEGA_R, OMEGA_E], randomLimits)
    ensures UsesSamplers(q, f, skSeed, pkSeed, theta)
    ensures q == p.(randomness := q.randomness, publicVector := q.publicVector, secretVectors := q.secretVectors)
  {
    hide Drew, Plenty, Seeded;
    var xy := DrewExists(f, Seeded(f, OctetsOf(skSeed)), [OMEGA, OMEGA], secretLimits);
    var r := DrewExists(f, Seeded(f, OctetsOf(theta[..SEED_BYTES])), [FixedWeight.OMEGA_R, FixedWeight.OMEGA_R, OMEGA_E], randomLimits);
    DrewLength(f, Seeded(f, OctetsOf(skSeed)), [OMEGA, OMEGA], xy);
    DrewLength(f, Seeded(f, OctetsOf(theta[..SEED_BYTES])), [FixedWeight.OMEGA_R, FixedWeight.OMEGA_R, OMEGA_E], r);
    assert xy == [xy[0], xy[1]] && r == [r[0], r[1], r[2]];
    var h := PublicVector(f, OctetsOf(pkSeed));
    q := p.(randomness := (t: Bytes) => (r[0], r[1], r[2]), publicVector := (s: Bytes) => h, secretVectors := (s: Bytes) => (xy[0], xy[1]));
  }

  /** The secret and the random vectors have their weights, and all vectors lie below X^17669. */
  lemma SampledVectors(p: Scheme, f: Sponge.State -> Sponge.State, skSeed: Bytes, pkSeed: Bytes, theta: Bytes)
    requires UsesSamplers(p, f, skSeed, pkSeed, theta)
    ensures var t := SecretsOf(p, theta, KeyOf(p, skSeed, pkSeed));
      && AllShort(t)
      && |FixedWeight.SetBitsOf(t.x)| == |FixedWeight.SetBitsOf(t.y)| == 66
      && |FixedWeight.SetBitsOf(t.r1)| == |FixedWeight.SetBitsOf(t.r2)| == |FixedWeight.SetBitsOf(t.e)| == 75
  {
    hide Drew, FixedWeight.SetBitsOf, CyclicRing.Short, KeyS;
    var t := SecretsOf(p, theta, KeyOf(p, skSeed, pkSeed));
    var u, v := Seeded(f, OctetsOf(skSeed)), Seeded(f, OctetsOf(theta[..SEED_BYTES]));
    DrewExact(f, u, [OMEGA, OMEGA], [t.x, t.y], 0);
    DrewExact(f, u, [OMEGA, OMEGA], [t.x, t.y], 1);
    var ws, vs := [FixedWeight.OMEGA_R, FixedWeight.OMEGA_R, OMEGA_E], [t.r1, t.r2, t.e];
    DrewExact(f, v, ws, vs, 0);
    DrewExact(f, v, ws, vs, 1);
    DrewExact(f, v, ws, vs, 2);
    PublicShort(f, OctetsOf(pkSeed));
  }

  lemma PublicShort(f: Sponge.State -> Sponge.State, seed: seq<Octets.Octet>)
    ensures CyclicRing.Short(PublicVector(f, seed))
  {
    hide CyclicRing.Short, ShakeStreams.Hashed, Sponge.Output, BytesBit;
    var b := Sponge.Output(KeccakSponge.Shake(f), Seeded(f, seed), CyclicRing.VECTOR_BYTES);
    CyclicRing.VectorShort((k: int) => BytesBit(b, k));
  }

  /** The decoder corrects every noise with at most 15 of its 46 blocks noisy. */
  lemma CorrectsNoise(p: Scheme, m: Bytes, noise: CyclicRing.Vec)
    requires UsesCode(p) && |m| == ReedSolomonEncoder.MESSAGE
    requires NoisyBlocks(noise, ReedSolomonEncoder.LENGTH) <= Berlekamp.DELTA
    ensures Corrects(p, m, noise)
  {
    hide Words64.BitOf, ConcatenatedCode.Encodes, ConcatenatedCode.BadBlocks, NoisyBlocks, Copies, ReedSolomonEncoder.Codeword;
    var c := p.encode(m);
    forall w: CodeVec | forall k :: 0 <= k < CODE_BITS ==> Words64.BitOf(w, k) == (Words64.BitOf(c, k) != Words64.BitOf(noise, k))
      ensures p.decode(w) == m
    {
      BadAreNoisy(w, c, noise, PolyOf(m), ReedSolomonEncoder.LENGTH);
      assert Decodes(w, p.decode(w));
    }
  }

  /** Decapsulation returns 0 and the encapsulated secret whenever at most 15 of the 46 blocks of the noise
      have more than 95 of their 384 bits set. */
  method HqcRoundTrip(p: Scheme, f: Sponge.State -> Sponge.State, m: Bytes, skSeed: Bytes, pkSeed: Bytes)
    returns (ss1: Bytes, ss2: Bytes, result: int)
    requires |m| == ReedSolomonEncoder.MESSAGE && Lengths(p) && UsesCode(p) && UsesSamplers(p, f, skSeed, pkSeed, p.hashG(m))
    requires NoisyBlocks(NoiseOf(p, p.hashG(m), KeyOf(p, skSeed, pkSeed)), ReedSolomonEncoder.LENGTH) <= Berlekamp.DELTA
    ensures result == 0 && ss2 == ss1
  {
    hide Lengths, UsesCode, UsesSamplers, NoiseOf, NoisyBlocks, SecretsOf, AllShort, KeyOf, Corrects, FixedWeight.SetBitsOf;
    SampledVectors(p, f, skSeed, pkSeed, p.hashG(m));
    CorrectsNoise(p, m, NoiseOf(p, p.hashG(m), KeyOf(p, skSeed, pkSeed)));
    ss1, ss2, result := KemRoundTrip(p, m, skSeed, pkSeed);
  }
}
