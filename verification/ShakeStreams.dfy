/** The users of incremental SHAKE-256 in the key encapsulation: domain-separated hashing, the generator
    and the seed expander. Each is a value of the one-shot SHAKE256 function. */
module ShakeStreams {
  import opened Octets
  import opened Remainders
  import opened Sponge
  import opened KeccakSponge

  /** The state from which a hash of message is squeezed. */
  function Hashed(f: State -> State, message: seq<Octet>): (u: Running)
    ensures Ready(Shake(f), u)
  {
    Finalize(Shake(f), Absorb(Shake(f), Running(Zero(), 0), message), SHAKE_DOMAIN)
  }

  /** The bytes squeezed so far are those of SHAKE256, however many are drawn. */
  lemma HashedIsShake(f: State -> State, message: seq<Octet>, n: nat)
    ensures Output(Shake(f), Hashed(f, message), n) == Shake256(f, message, n)
  {
    IncrementalIsHash(Shake(f), message, SHAKE_DOMAIN, n);
  }

  /** The same message absorbed in pieces. */
  lemma AbsorbTwo(f: State -> State, a: seq<Octet>, b: seq<Octet>)
    ensures Absorb(Shake(f), Absorb(Shake(f), Running(Zero(), 0), a), b) == Absorb(Shake(f), Running(Zero(), 0), a + b)
  {
    AbsorbChunks(Shake(f), Running(Zero(), 0), a, b);
  }

  /** shake256_512_ds: 64 bytes of SHAKE256 over the input with its domain byte. */
  method Hash512(state: Incremental, f: State -> State, output: array<Octet>, input: array<Octet>, length: nat, domain: Octet)
    requires state.s.Length == 200 && length <= input.Length && output.Length == 64
    requires input != state.s && output != state.s && output != input
    modifies state`count, state.s, output
    ensures output[..] == Shake256(f, input[..length] + [domain], 64)
  {
    hide Absorb, Finalize, Output, Shake256;
    var m := Shake(f);
    ghost var message := input[..length];
    state.Init();
    state.AbsorbBytes(m, input, length);
    var byte := new Octet[1](_ => domain);
    state.AbsorbBytes(m, byte, 1);
    assert byte[..1] == [domain];
    AbsorbTwo(f, message, [domain]);
    state.FinalizeWith(m, SHAKE_DOMAIN);
    HashedIsShake(f, message + [domain], 64);
    state.Squeeze(m, output, 64);
    assert output[..64] == output[..];
  }

  const SEEDEXPANDER_DOMAIN := Octet(2)
  const PRNG_DOMAIN := Octet(1)

  /** seedexpander_init. */
  method SeedExpanderInit(state: Incremental, f: State -> State, seed: array<Octet>, length: nat)
    requires state.s.Length == 200 && seed != state.s && length <= seed.Length
    modifies state`count, state.s
    ensures state.Valid(Shake(f)) && state.View() == Hashed(f, seed[..length] + [Octet(2)])
  {
    hide Absorb, Finalize;
    var m := Shake(f);
    state.Init();
    ghost var message := seed[..length];
    state.AbsorbBytes(m, seed, length);
    var byte := new Octet[1](_ => SEEDEXPANDER_DOMAIN);
    state.AbsorbBytes(m, byte, 1);
    assert byte[..1] == [SEEDEXPANDER_DOMAIN];
    AbsorbTwo(f, message, [SEEDEXPANDER_DOMAIN]);
    state.FinalizeWith(m, SHAKE_DOMAIN);
  }

  /** shake_prng_init. */
  method PrngInit(state: Incremental, f: State -> State, entropy: array<Octet>, personal: array<Octet>)
    requires state.s.Length == 200 && entropy != state.s && personal != state.s
    modifies state`count, state.s
    ensures state.Valid(Shake(f)) && state.View() == Hashed(f, entropy[..] + personal[..] + [Octet(1)])
  {
    hide Absorb, Finalize;
    var m := Shake(f);
    state.Init();
    state.AbsorbBytes(m, entropy, entropy.Length);
    state.AbsorbBytes(m, personal, personal.Length);
    assert entropy[..entropy.Length] == entropy[..] && personal[..personal.Length] == personal[..];
    AbsorbTwo(f, entropy[..], personal[..]);
    var byte := new Octet[1](_ => PRNG_DOMAIN);
    state.AbsorbBytes(m, byte, 1);
    assert byte[..1] == [PRNG_DOMAIN];
    AbsorbTwo(f, entropy[..] + personal[..], [PRNG_DOMAIN]);
    state.FinalizeWith(m, SHAKE_DOMAIN);
  }

  /** The bytes that a draw of n takes from the stream: whole groups of eight. */
  function Drawn(n: nat): (d: nat)
    ensures n <= d < n + 8 && d % 8 == 0
  {
    if n % 8 == 0 then n else n - n % 8 + 8
  }

  /** seedexpander: n bytes come out, and the stream moves on to the next multiple of eight. */
  method SeedExpander(state: Incremental, f: State -> State, output: array<Octet>, n: nat)
    requires state.Valid(Shake(f)) && output != state.s && n <= output.Length
    modifies state`count, state.s, output
    ensures state.Valid(Shake(f)) && state.View() == AfterSqueeze(Shake(f), old(state.View()), Drawn(n))
    ensures output[..n] == Output(Shake(f), old(state.View()), n)
    ensures output[n..] == old(output[n..])
  {
    hide AfterSqueeze, Output;
    var m := Shake(f);
    var remainder := n % 8;
    var whole := n - remainder;
    ghost var u := state.View();
    state.Squeeze(m, output, whole);
    if remainder != 0 {
      var tmp := new Octet[8](_ => NULL);
      SqueezeChunks(m, u, whole, 8);
      SqueezeChunks(m, u, whole, remainder);
      SqueezePrefix(m, state.View(), remainder);
      state.Squeeze(m, tmp, 8);
      ghost var had := output[..whole];
      CopyOut(output, whole, tmp, 0, remainder);
      assert tmp[0..remainder] == tmp[..8][..remainder];
    }
  }

  /** A shorter draw is a prefix of a longer one. */
  lemma SqueezePrefix(m: Mode, u: Running, n: nat)
    requires Ready(m, u) && n <= 8
    ensures Output(m, u, 8)[..n] == Output(m, u, n)
  {
    hide Output;
    SqueezeChunks(m, u, n, 8 - n);
  }
}
