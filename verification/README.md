# Verified model of a post-quantum key exchange for radio sensor nodes

A sensor node asks the root of its network for a public key. The root sends the key in 36 fragments, the node
answers with an HQC-128 ciphertext in 71 fragments, and the root confirms with an acknowledgement. From then on the
node sends encrypted temperature readings. This project models that system in Dafny and proves what it is for:

* **The handshake stack.** Under loss, duplication, reordering, repeated requests, selective retransmission and
  retries, an established root holds the node's secret, and the node is established only after the root derived it
  (`KeyAgreement`), and a side that hears nothing gives up after at most three retries (`AttemptEnds`). What the handler,
  the retry and the drivers send is stated packet by packet and byte by byte (`HandshakeRules`, `MessageRules`,
  `DriverRules`). Handler against handler, missing fragments come back in exactly ceil(missing / 16) rounds
  (`NackRecovery`), and there are whole runs that succeed after the first key, ciphertext, request, acknowledgement or
  almost any set of ciphertext fragments is lost (`HandshakeRuns`, `LossyRuns`). Below that: the transmit queue of 96
  slots, reassembly, the session table, and the handler and both drivers as classes that update slots, session and
  queue in place and refine the functions that these theorems are about (`HandshakeDevice`, `Drivers`).
* **The arithmetic of HQC-128.** GF(256) as computed by the code, Berlekamp's algorithm in place, the additive FFT
  as pointwise evaluation, the whole Reed-Solomon decoder up to 15 symbol errors, the Reed-Muller decoder up to 95
  flips in a block, Karatsuba and word folding as the product modulo X^17669 - 1, the ring identity behind
  decryption, and encapsulation with re-encryption check and masking. `HqcCorrectness` joins them: decapsulation
  returns the encapsulated secret whenever at most 15 of the 46 blocks of x r2 + r1 y + e have more than 95 bits set.
* **The symmetric part.** The Keccak sponge, incremental and one-shot, as the construction of FIPS 202 over any
  permutation; fixed-weight sampling on top of it; AES-256 with its field and substitution table (`AesField`), CBC and
  CTR; and the counter window of the encrypted readings, which uses both.

## How the model is laid out

Each module is one component; the file has its name. Code that works in place is a method on an array or a class,
proved against a function on values; the laws are lemmas about those functions.

| part | modules |
|---|---|
| field | `Gf256` (the field by its laws), `GfArithmetic` (the code of gf.c), `Polynomials`, `PowerSums`, `LookupTables`, `FieldTables` (gf.h, reed_solomon.h) |
| Reed-Solomon | `Berlekamp`, `ErrorLocator`, `RadixConversion`, `AdditiveFft`, `RootFinder`, `ErrorPositions`, `GeneratorPolynomial`, `ReedSolomonEncoder`, `Syndromes`, `ForneyValues`, `ReedSolomonDecoder` |
| Reed-Muller | `Words32`, `Hadamard`, `ReedMuller`, `ConcatenatedCode` |
| HQC | `BinaryPolynomials`, `Words64`, `BaseMultiplication`, `KaratsubaProduct`, `CyclicRing`, `HqcKem`, `FixedWeight`, `KeySampling`, `CodeVectors`, `HqcCorrectness` |
| symmetric | `Octets`, `Remainders`, `Sponge`, `KeccakSponge`, `ShakeStreams`, `AesTables`, `AesColumns`, `AesCipher`, `AesModes`, `AesField`, `AesContext`, `CryptoWorker` |
| protocol | `Protocol`, `Fragmentation`, `Nack`, `TxQueue`, `SessionManager`, `Handshake`, `HandshakeDevice`, `KeyExchange`, `Drivers`, `AttemptEnds`, `KeyAgreement`, `HandshakeRules`, `MessageRules`, `DriverRules`, `NackRecovery`, `HandshakeCompletes`, `HandshakeRuns`, `LossyRuns`, `TempWindow` |

## How the source's data appears

* Field elements, `uint16_t` in the source with values below 256, are bytes. The methods of the decoder call the field
  product `Mul`, which `GfArithmetic.GfMul` proves gf_mul to compute. The entries of `gf_exp`, `gf_log` and
  `alpha_ij_pow` are written out in `FieldTables` and proved to be the powers and logarithms of alpha; that
  `gf_generate` computes powers and logarithms is `RootFinder.GfGenerate`.
* Constant-time masks are conditionals; where the mask is computed from a difference or a sign, a lemma or method shows
  that it is the condition (`RootFinder.ZeroTestCorrect`, `FixedWeight.ZeroTest`,
  `HqcKem.NegationSign`, `HqcKem.SignMask`, the selection loops).
* A 64-bit word is its 64 bits, a Keccak lane its eight bytes, least significant first, so `load64` and `store64` are
  copies. Karatsuba works on one memory of words with offsets for `a`, `b`, `o` and `stack`.
* The Keccak permutation is a parameter. The key encapsulation of the protocol is a pair of functions with the law that
  decapsulation recovers what encapsulation made; the one of `HqcKem` takes the hashes, the samplers and the code as
  functions and states correctness for noise that the decoder corrects, and `HqcCorrectness` says what these functions
  are: the code of `CodeVectors` and the samplers of `KeySampling`.
* In a run every packet ever sent stays in a set and may be delivered at any later time, any number of times or never;
  the clock, the free queue slots and randomness are inputs of every step. Clock ticks are counted at 128 a second.
* Counters that wrap are taken modulo their width: message ids, the threshold of `rx_slot_nack_due`, the Berlekamp index
  arithmetic with -1 as 0xFFFF, the TEMP counters.

## Findings

* Adding the domain byte and the final bit (`keccak_inc_finalize`) pads as the one-shot function does exactly when the
  two do not fall on one byte or the domain byte is below 128; the bytes in use, 0x1F and 0x06, are.
* `fft_retrieve_error_poly` marks position 0 for a root at 1, but also flips it for a root at 0. The decoder is right
  because a locator never vanishes at 0 (`ErrorPositions.RootsArePositions`).
* `compute_z_poly` does not mask the first coefficient; harmless, since degree 0 means the first syndrome is zero
  (`ForneyValues.UnmaskedIsZero`).
* The comment of `vect_compare` promises a negative or positive value for different vectors; the code returns 1.
* `vect_set_random_fixed_weight` returns when its stream holds enough different accepted positions, and then stops at the
  first number of draws that yields them; the method's precondition names a number of draws by which that happens
  (`FixedWeight.EnoughDraws`).
* A packet with a valid header whose fragment fields are out of range still moves the root's pending message when its
  type is CT, and still restarts the session when its type is GETPK (`Drivers.RootReject`).
* While no NACK went out, the root's deadline for a ciphertext lies exactly where its reception slot becomes too old. Its
  timer therefore asks for missing fragments only when it runs at that very tick; at any later one the slot is collected
  first and the session fails. A lost last fragment, without which no NACK is due, so normally ends the attempt
  (`HandshakeRules.TimerTick`).
* The TEMP window recovers from at most 15 lost packets in a row; the sixteenth puts the counter outside the window, and
  the packet is then accepted only by accident (`TempWindow.OpenSealed`).

## Model

| member | source | states |
|---|---|---|
| GfArithmetic.GfCarrylessMul | extern/HQC-Round4/Additional_Implementation/hqc-128/src/gf.c:112-148 | the windowed, branch-free loop returns the carry-less product of the two bytes |
| GfArithmetic.SelectWindow | extern/HQC-Round4/Additional_Implementation/hqc-128/src/gf.c:112-148 | the constant-time scan of the four-entry table returns the entry asked for |
| GfArithmetic.TrailingZeroBitsCount | extern/HQC-Round4/Additional_Implementation/hqc-128/src/gf.c:53-61 | the number of low zero bits, capped at 14: all bits below are clear, the bit there is set unless the cap is reached |
| GfArithmetic.GfReduce | extern/HQC-Round4/Additional_Implementation/hqc-128/src/gf.c:71-98 | both folding steps, with the distances taken from the trailing zeros of 0x11D, fold the product twice |
| GfArithmetic.FoldCarryless | extern/HQC-Round4/Additional_Implementation/hqc-128/src/gf.c:71-98 | folding the carry-less product twice gives the product in GF(2)[X]/(0x11D) |
| GfArithmetic.GfMul | extern/HQC-Round4/Additional_Implementation/hqc-128/src/gf.c:158-163 | gf_mul is the field product, for every pair of bytes |
| GfArithmetic.GfSquare | extern/HQC-Round4/Additional_Implementation/hqc-128/src/gf.c:172-181 | gf_square is the product of the argument with itself |
| GfArithmetic.GfInverse | extern/HQC-Round4/Additional_Implementation/hqc-128/src/gf.c:191-207 | the addition chain computes a^254, which times a is one for every nonzero a |
| GfArithmetic.InverseCorrect | extern/HQC-Round4/Additional_Implementation/hqc-128/src/gf.c:191-207 | a * inverse(a) = 1 for every nonzero a, and the inverse of zero is computed as zero |
| Gf256.MulAssoc | extern/HQC-Round4/Additional_Implementation/hqc-128/src/gf.c:158-163 | the field product is associative |
| Gf256.MulComm | extern/HQC-Round4/Additional_Implementation/hqc-128/src/gf.c:158-163 | the field product is commutative |
| Gf256.MulAdd | extern/HQC-Round4/Additional_Implementation/hqc-128/src/gf.c:158-163 | the field product distributes over exclusive or, on both sides |
| GfArithmetic.MulNonzero | extern/HQC-Round4/Additional_Implementation/hqc-128/src/gf.c:158-163 | no zero divisors: a product is zero exactly when a factor is |
| Gf256.AlphaOrder | extern/HQC-Round4/Additional_Implementation/hqc-128/src/gf.c:25-43 | alpha^k = 1 exactly when 255 divides k, so alpha generates the whole group |
| Gf256.Logarithm | extern/HQC-Round4/Additional_Implementation/hqc-128/src/gf.c:25-43 | every nonzero element is a power of alpha with exponent below 255 |
| RootFinder.GfGenerate | extern/HQC-Round4/Additional_Implementation/hqc-128/src/gf.c:25-43 | the loop fills the table of all 258 powers of alpha and a logarithm table that inverts it |
| FieldTables.ExpTable | extern/HQC-Round4/Additional_Implementation/hqc-128/src/gf.h:18 | every one of the 258 entries of gf_exp is alpha to the power of its index |
| FieldTables.LogTableRight | extern/HQC-Round4/Additional_Implementation/hqc-128/src/gf.h:26 | gf_log holds the exponent of every power of alpha, and 0 for 0 |
| FieldTables.AlphaTable | extern/HQC-Round4/Additional_Implementation/hqc-128/src/reed_solomon.h:13 | every one of the 1350 entries of alpha_ij_pow is alpha to the power (i + 1)(j + 1) |
| Berlekamp.ComputeElp | extern/HQC-Round4/Additional_Implementation/hqc-128/src/reed_solomon.c:155-216 | for every 30 syndromes: sigma[0] = 1; if the returned degree is at most 15, sum of sigma_i * S_(k-i) = 0 for every k from the degree to 29; no shorter recurrence of length at most 15 generates the syndromes |
| Berlekamp.MasseyBound | extern/HQC-Round4/Additional_Implementation/hqc-128/src/reed_solomon.c:155-216 | a recurrence of length L that fails at n forces every recurrence that explains symbol n to have length at least n + 1 - L |
| Berlekamp.ShiftedAction | extern/HQC-Round4/Additional_Implementation/hqc-128/src/reed_solomon.c:155-216 | the array X_sigma_p, the saved polynomial shifted and cut to 16 coefficients, still acts as X^e times that polynomial as long as nothing but zeros is cut off |
| ErrorLocator.ShortestIsUnique | extern/HQC-Round4/Additional_Implementation/hqc-128/src/reed_solomon.c:155-216 | among recurrences of a length of at most 15 that is shortest for 30 symbols there is only one |
| ErrorLocator.AtLeastTheErrors | extern/HQC-Round4/Additional_Implementation/hqc-128/src/reed_solomon.c:155-216 | a recurrence for the syndromes of v <= 15 errors has length at least v |
| ErrorLocator.LocatorKills | extern/HQC-Round4/Additional_Implementation/hqc-128/src/reed_solomon.c:155-216 | the product of 1 + X_l * x over the error locations annihilates their weighted power sums |
| ErrorLocator.LocatorFound | extern/HQC-Round4/Additional_Implementation/hqc-128/src/reed_solomon.c:155-216 | for at most 15 errors the result of compute_elp is their number and exactly their locator polynomial |
| PowerSums.WeightsVanish | extern/HQC-Round4/Additional_Implementation/hqc-128/src/reed_solomon.c:128-135 | Vandermonde: n vanishing power sums over n distinct locations force all weights to vanish |
| AdditiveFft.ComputeSubsetSums | extern/HQC-Round4/Additional_Implementation/hqc-128/src/fft.c:49-58 | entry i is the sum of the elements picked out by the bits of i |
| RadixConversion.RadixCorrect | extern/HQC-Round4/Additional_Implementation/hqc-128/src/fft.c:74-154 | the radix conversion is an identity of polynomials: f(x) = f0(x^2 + x) + x * f1(x^2 + x) |
| AdditiveFft.RadixConvert4 | extern/HQC-Round4/Additional_Implementation/hqc-128/src/fft.c:74-101 | the straight-line code for 16 coefficients, which reuses its own outputs, computes the recursive conversion |
| AdditiveFft.RadixConvert | extern/HQC-Round4/Additional_Implementation/hqc-128/src/fft.c:74-123 | the straight-line cases for 2, 4, 8 and 16 coefficients compute the recursive conversion |
| AdditiveFft.EvaluateLinear | extern/HQC-Round4/Additional_Implementation/hqc-128/src/fft.c:170-205 | the base case doubles the table in place and holds the value of the linear polynomial at every subset sum |
| AdditiveFft.Twist | extern/HQC-Round4/Additional_Implementation/hqc-128/src/fft.c:207-214 | the coefficient of x^i is multiplied in place by beta^i |
| AdditiveFft.Reduce | extern/HQC-Round4/Additional_Implementation/hqc-128/src/fft.c:219-225 | gammas are the betas over the last one, deltas their images under x^2 + x |
| AdditiveFft.Butterfly | extern/HQC-Round4/Additional_Implementation/hqc-128/src/fft.c:229-249 | both output halves from the two half-size transforms |
| AdditiveFft.RecursionValues | extern/HQC-Round4/Additional_Implementation/hqc-128/src/fft.c:170-249 | untwisting and combining the halves at gamma and gamma + 1 gives the values at all subset sums of the betas |
| AdditiveFft.FftRec | extern/HQC-Round4/Additional_Implementation/hqc-128/src/fft.c:170-249 | for every polynomial of 2, 4 or 8 coefficients and independent betas, w[i] is its value at subset sum i |
| RootFinder.Fft | extern/HQC-Round4/Additional_Implementation/hqc-128/src/fft.c:272-320 | for every polynomial of 16 coefficients, w holds its value at all 256 field elements, point t at entry t |
| RootFinder.Slot | extern/HQC-Round4/Additional_Implementation/hqc-128/src/fft.c:272-320 | the 256 evaluation points are the 256 field elements, each exactly once |
| RootFinder.FftRetrieveErrorPoly | extern/HQC-Round4/Additional_Implementation/hqc-128/src/fft.c:331-351 | error position p is marked exactly when the value at alpha^(-p) is zero; position 0 is the exclusive or of the marks for 0 and 1 |
| RootFinder.ComputeRoots | extern/HQC-Round4/Additional_Implementation/hqc-128/src/reed_solomon.c:229-234 | position p is marked exactly when sigma(alpha^(-p)) = 0; position 0 is marked when exactly one of sigma(1), sigma(0) is zero |
| ErrorPositions.RootsArePositions | extern/HQC-Round4/Additional_Implementation/hqc-128/src/reed_solomon.c:229-234 | the locator vanishes at alpha^(-p) exactly for the positions p in error, and never at 0 |
| ErrorPositions.LocateErrors | extern/HQC-Round4/Additional_Implementation/hqc-128/src/reed_solomon.c:377-470 | Berlekamp followed by the root finder marks exactly the positions of any error of at most 15 symbols |
| GeneratorPolynomial.Functional | extern/HQC-Round4/Additional_Implementation/hqc-128/src/parameters.h:95 | (1 + x) g(x) = (1 + alpha^225 x) g(alpha x) for the 31 table coefficients |
| GeneratorPolynomial.GeneratorRoot | extern/HQC-Round4/Additional_Implementation/hqc-128/src/reed_solomon.c:56-76 | the polynomial in RS_POLY_COEFS vanishes at alpha^1 .. alpha^30 |
| ReedSolomonEncoder.ClockInPlace | extern/HQC-Round4/Additional_Implementation/hqc-128/src/reed_solomon.c:103-112 | one clock of the shift register in place, from the top symbol down |
| ReedSolomonEncoder.ReedSolomonEncode | extern/HQC-Round4/Additional_Implementation/hqc-128/src/reed_solomon.c:90-118 | the loop returns the parity register followed by the message |
| ReedSolomonEncoder.RegisterDivides | extern/HQC-Round4/Additional_Implementation/hqc-128/src/reed_solomon.c:90-118 | after i symbols, register + x^30 * (those symbols) = g * (the gate values): the register is the remainder modulo g |
| ReedSolomonEncoder.CodewordMultiple | extern/HQC-Round4/Additional_Implementation/hqc-128/src/reed_solomon.c:90-118 | the codeword is g times the quotient |
| ReedSolomonEncoder.CodewordRoot | extern/HQC-Round4/Additional_Implementation/hqc-128/src/reed_solomon.c:90-118 | every codeword vanishes at alpha^1 .. alpha^30, so all its syndromes are zero |
| Syndromes.ParityUnique | extern/HQC-Round4/Additional_Implementation/hqc-128/src/reed_solomon.c:90-118 | 30 symbols in front of a message make a word with all syndromes zero exactly when they are the register, that is msg * x^30 mod g |
| Syndromes.EncodeLinear | extern/HQC-Round4/Additional_Implementation/hqc-128/src/reed_solomon.c:90-118 | encoding a sum is the sum of the encodings |
| Syndromes.ComputeSyndromes | extern/HQC-Round4/Additional_Implementation/hqc-128/src/reed_solomon.c:128-135 | the loops over the table alpha_ij_pow compute the value of the word at alpha^(i+1) |
| Syndromes.SyndromesOfError | extern/HQC-Round4/Additional_Implementation/hqc-128/src/reed_solomon.c:128-135 | the syndromes of codeword + error are those of the error |
| Syndromes.SyndromeSum | extern/HQC-Round4/Additional_Implementation/hqc-128/src/reed_solomon.c:128-135 | syndromes are the weighted power sums of the error locations |
| Syndromes.PatternOfError | extern/HQC-Round4/Additional_Implementation/hqc-128/src/reed_solomon.c:128-135 | an error of at most 15 symbols gives distinct nonzero locations with nonzero weights |
| Syndromes.NoSparseMultiple | extern/HQC-Round4/Additional_Implementation/hqc-128/src/reed_solomon.c:128-135 | a word with at most 30 nonzero symbols and all syndromes zero is zero: minimum distance 31 |
| ForneyValues.ComputeZPoly | extern/HQC-Round4/Additional_Implementation/hqc-128/src/reed_solomon.c:248-269 | the masked loops compute the coefficients of z up to the degree, with the first one never masked |
| ForneyValues.ZCoefficients | extern/HQC-Round4/Additional_Implementation/hqc-128/src/reed_solomon.c:248-269 | for every error pattern, the empty one too, z is the locator plus x times the evaluator polynomial |
| ForneyValues.UnmaskedIsZero | extern/HQC-Round4/Additional_Implementation/hqc-128/src/reed_solomon.c:248-269 | when the recurrence has degree 0 the first syndrome, which the code adds unmasked, is zero |
| ForneyValues.ZPolyMasked | extern/HQC-Round4/Additional_Implementation/hqc-128/src/reed_solomon.c:248-269 | so for any recurrence that generates the syndromes all coefficients of z beyond its degree are zero |
| ForneyValues.EvaluatorCoefficient | extern/HQC-Round4/Additional_Implementation/hqc-128/src/reed_solomon.c:248-269 | coefficient n of the evaluator is the locator acting on the syndromes at n |
| ForneyValues.Forney | extern/HQC-Round4/Additional_Implementation/hqc-128/src/reed_solomon.c:283-341 | z(1/X_m) is the error value times the product of the other locator factors, which is not zero |
| ReedSolomonDecoder.CollectLocations | extern/HQC-Round4/Additional_Implementation/hqc-128/src/reed_solomon.c:289-301 | the constant-time deposit loop collects alpha^p for the marked positions in ascending order |
| ReedSolomonDecoder.ErrorValue | extern/HQC-Round4/Additional_Implementation/hqc-128/src/reed_solomon.c:303-324 | one computed value: z at the inverse location over the cyclic product of the other factors |
| ReedSolomonDecoder.ErrorValues | extern/HQC-Round4/Additional_Implementation/hqc-128/src/reed_solomon.c:283-341 | from the z polynomial and marks of an error of at most 15 symbols the loops compute that error |
| ReedSolomonDecoder.PlaceValues | extern/HQC-Round4/Additional_Implementation/hqc-128/src/reed_solomon.c:326-341 | the values go back to the marked positions, one each, in order |
| ReedSolomonDecoder.CorrectErrors | extern/HQC-Round4/Additional_Implementation/hqc-128/src/reed_solomon.c:352-356 | the values are added to the word in place |
| ReedSolomonDecoder.UniqueDecoding | extern/HQC-Round4/Additional_Implementation/hqc-128/src/reed_solomon.c:377-470 | a word is within 15 symbols of at most one codeword |
| ReedSolomonDecoder.ReedSolomonDecode | extern/HQC-Round4/Additional_Implementation/hqc-128/src/reed_solomon.c:377-470 | for every word within 15 symbols of the codeword of a message, the decoder returns that message |
| Hadamard.PassInto | extern/HQC-Round4/Additional_Implementation/hqc-128/src/reed_muller.c:84-100 | one pass writes sums into the lower and differences into the upper half |
| Hadamard.SevenPasses | extern/HQC-Round4/Additional_Implementation/hqc-128/src/reed_muller.c:84-100 | seven passes compute the Walsh-Hadamard sum in natural order, at every index |
| Hadamard.Transform | extern/HQC-Round4/Additional_Implementation/hqc-128/src/reed_muller.c:84-100 | the two buffers swapped seven times end with the transform in dst, every value within 16 bits |
| ReedMuller.Encode | extern/HQC-Round4/Additional_Implementation/hqc-128/src/reed_muller.c:51-71 | bit p of the four words is the RM(1,7) code bit of the byte, for all 128 positions |
| ReedMuller.ExpandAndSum | extern/HQC-Round4/Additional_Implementation/hqc-128/src/reed_muller.c:117-132 | entry p counts the copies in which bit p is set |
| ReedMuller.FindPeaks | extern/HQC-Round4/Additional_Implementation/hqc-128/src/reed_muller.c:145-162 | the first position of the largest absolute value, with bit 7 set when the value there is positive |
| ReedMuller.Orthogonal | extern/HQC-Round4/Additional_Implementation/hqc-128/src/reed_muller.c:84-100 | the transform of a character is concentrated at its own index |
| ReedMuller.IdealTransform | extern/HQC-Round4/Additional_Implementation/hqc-128/src/reed_muller.c:202-217 | without errors the corrected transform is +-192 at the message and 0 elsewhere |
| ReedMuller.TransformDistance | extern/HQC-Round4/Additional_Implementation/hqc-128/src/reed_muller.c:202-217 | every flipped bit moves every transform entry by at most one |
| ReedMuller.PeakIsMessage | extern/HQC-Round4/Additional_Implementation/hqc-128/src/reed_muller.c:202-217 | with at most 95 flips the peak is at the message and its sign gives bit 7 |
| ReedMuller.DecodeBlock | extern/HQC-Round4/Additional_Implementation/hqc-128/src/reed_muller.c:202-217 | one block of 384 bits: the byte whose code word is within 95 flips, if there is one |
| ReedMuller.NearOnce | extern/HQC-Round4/Additional_Implementation/hqc-128/src/reed_muller.c:202-217 | code words are 192 bits apart, so a block is within 95 bits of at most one |
| ReedMuller.ReedMullerEncode | extern/HQC-Round4/Additional_Implementation/hqc-128/src/reed_muller.c:175-189 | three copies of the code word of every byte |
| ReedMuller.ReedMullerDecode | extern/HQC-Round4/Additional_Implementation/hqc-128/src/reed_muller.c:202-217 | every byte whose block has at most 95 of 384 bits flipped is returned |
| ConcatenatedCode.CodeEncode | extern/HQC-Round4/Additional_Implementation/hqc-128/src/code.c:28-38 | every Reed-Solomon symbol of the message is encoded as three Reed-Muller words |
| ConcatenatedCode.CodeDecode | extern/HQC-Round4/Additional_Implementation/hqc-128/src/code.c:48-58 | the message is returned whenever at most 15 of the 46 blocks have more than 95 flips |
| ConcatenatedCode.UniqueMessage | extern/HQC-Round4/Additional_Implementation/hqc-128/src/code.c:48-58 | at most one message has a code word with at most 15 bad blocks |
| CodeVectors.CopyBit | extern/HQC-Round4/Additional_Implementation/hqc-128/src/reed_muller.c:14-18 | bit p of codeword q in the array of 32-bit words is bit 128 q + p of the vector of 64-bit words |
| CodeVectors.EncodeVector | extern/HQC-Round4/Additional_Implementation/hqc-128/src/code.c:28-38 | on bytes and 64-bit words: every symbol of the outer code word fills three copies with its code bits |
| CodeVectors.DecodeVector | extern/HQC-Round4/Additional_Implementation/hqc-128/src/code.c:48-58 | on 64-bit words and with the tables of gf.h: the message whose code word has at most 15 bad blocks, if there is one |
| CodeVectors.Decoded | extern/HQC-Round4/Additional_Implementation/hqc-128/src/code.c:48-58 | for every word some message satisfies the contract of the decoder |
| CodeVectors.FlipsAreNoise | extern/HQC-Round4/Additional_Implementation/hqc-128/src/code.c:48-58 | the flips in block i are the set bits of the noise in the 384 positions from 384 i on |
| CodeVectors.BadAreNoisy | extern/HQC-Round4/Additional_Implementation/hqc-128/src/code.c:48-58 | the bad blocks of a code word with noise are the blocks in which more than 95 bits of the noise are set |
| ConcatenatedCode.ErrorsAreBad | extern/HQC-Round4/Additional_Implementation/hqc-128/src/code.c:48-58 | only blocks with more than 95 flips can reach the outer decoder as symbol errors |
| ConcatenatedCode.RoundTrip | extern/HQC-Round4/Additional_Implementation/hqc-128/src/code.c:28-58 | code_decode undoes code_encode |
| BaseMultiplication.WindowTable | extern/HQC-Round4/Additional_Implementation/hqc-128/src/gf2x.c:31-54 | the sixteen multiples of the low sixty bits |
| BaseMultiplication.Select | extern/HQC-Round4/Additional_Implementation/hqc-128/src/gf2x.c:57-65 | the constant-time scan returns the entry asked for |
| BaseMultiplication.LowProduct | extern/HQC-Round4/Additional_Implementation/hqc-128/src/gf2x.c:56-82 | window by window: the product with the low sixty bits of b, in two words |
| BaseMultiplication.BaseMul | extern/HQC-Round4/Additional_Implementation/hqc-128/src/gf2x.c:31-99 | the two words hold the carry-less product of two 64-bit words |
| KaratsubaProduct.KaratsubaIdentity | extern/HQC-Round4/Additional_Implementation/hqc-128/src/gf2x.c:143-174 | three half-size products combine to the product, also when the high halves are one word shorter |
| KaratsubaProduct.CombinedIsProduct | extern/HQC-Round4/Additional_Implementation/hqc-128/src/gf2x.c:118-174 | the overlapping in-place combination of the three products is the product |
| KaratsubaProduct.KaratsubaAdd1 | extern/HQC-Round4/Additional_Implementation/hqc-128/src/gf2x.c:104-114 | the sums of the halves, the last word copied when the high half is shorter |
| KaratsubaProduct.KaratsubaAdd2 | extern/HQC-Round4/Additional_Implementation/hqc-128/src/gf2x.c:118-130 | the combination in place although tmp2 lies inside o; nothing else changes but tmp1 |
| KaratsubaProduct.StackBound | extern/HQC-Round4/Additional_Implementation/hqc-128/src/gf2x.c:143-174 | the recursion uses at most 8 * size - 8 words of scratch memory |
| KaratsubaProduct.Karatsuba | extern/HQC-Round4/Additional_Implementation/hqc-128/src/gf2x.c:143-174 | for every size of at least one word, odd splits included, o receives the carry-less product of a and b and only o and the scratch words change |
| CyclicRing.Reduce | extern/HQC-Round4/Additional_Implementation/hqc-128/src/gf2x.c:186-197 | the shifted additions fold bits 17669 and up onto the low ones, bit by bit |
| CyclicRing.FoldedIsTimes | extern/HQC-Round4/Additional_Implementation/hqc-128/src/gf2x.c:186-219 | for operands of degree below 17669, folding once is the product modulo X^17669 - 1 |
| CyclicRing.VectMul | extern/HQC-Round4/Additional_Implementation/hqc-128/src/gf2x.c:213-219 | vect_mul is the product in F2[X]/(X^17669 - 1) for operands of degree below 17669 |
| CyclicRing.TimesExchange | extern/HQC-Round4/Additional_Implementation/hqc-128/src/gf2x.c:213-219 | a * (b * c) = b * (a * c) in the ring |
| CyclicRing.TimesAdd | extern/HQC-Round4/Additional_Implementation/hqc-128/src/gf2x.c:213-219 | the ring product distributes over addition |
| CyclicRing.TimesComm | extern/HQC-Round4/Additional_Implementation/hqc-128/src/gf2x.c:213-219 | the ring product is commutative on reduced vectors |
| CyclicRing.VectAdd | extern/HQC-Round4/Additional_Implementation/hqc-128/src/vector.c:130-134 | word-wise exclusive or is addition in the ring |
| HqcKem.PkeKeygen | extern/HQC-Round4/Additional_Implementation/hqc-128/src/hqc.c:30-72 | the public key is the seed with x + y * h, the secret key the seed with the public key |
| HqcKem.PkeEncrypt | extern/HQC-Round4/Additional_Implementation/hqc-128/src/hqc.c:87-133 | u = r1 + r2 * h and v = code(m) + s * r2 + e cut to 17664 bits |
| HqcKem.PkeDecrypt | extern/HQC-Round4/Additional_Implementation/hqc-128/src/hqc.c:145-169 | the decoder applied to v + u * y cut to 17664 bits |
| HqcKem.RingIdentity | extern/HQC-Round4/Additional_Implementation/hqc-128/src/hqc.c:87-169 | y * (r1 + r2 h) = e + r2 * (x + y h) + (x r2 + r1 y + e), bit by bit |
| HqcKem.DecoderSees | extern/HQC-Round4/Additional_Implementation/hqc-128/src/hqc.c:87-169 | decryption hands the decoder the codeword plus x r2 + r1 y + e on the first 17664 bits |
| HqcKem.DecryptsTo | extern/HQC-Round4/Additional_Implementation/hqc-128/src/hqc.c:145-169 | decryption returns the message whenever the decoder corrects that noise |
| HqcKem.VectCompare | extern/HQC-Round4/Additional_Implementation/hqc-128/src/vector.c:146-155 | 0 when the first size bytes are equal, 1 otherwise: the collected differences are negated in 64 bits and the sign bit is taken |
| HqcKem.NegationSign | extern/HQC-Round4/Additional_Implementation/hqc-128/src/vector.c:146-155 | the sign bit of (~r + 1) is 0 for r = 0 and 1 for every other byte r |
| HqcKem.BytesDetermine | extern/HQC-Round4/Additional_Implementation/hqc-128/src/kem.c:149-152 | vectors of 64-bit words are equal exactly when their bytes are |
| HqcKem.ComparedBytes | extern/HQC-Round4/Additional_Implementation/hqc-128/src/kem.c:149-152 | comparing the first 2209 bytes is comparing all words when both vectors have no bits beyond these bytes |
| HqcKem.KemEnc | extern/HQC-Round4/Additional_Implementation/hqc-128/src/kem.c:51-95 | u and v encrypt the message under the randomness G(m), the third part is H(m), and the secret is K(m, u, v) |
| HqcKem.SignMask | extern/HQC-Round4/Additional_Implementation/hqc-128/src/kem.c:150-154 | the 16-bit arithmetic shift turns the flag 0 or 1 into the mask 0 or 0xFF |
| HqcKem.MaskSecret | extern/HQC-Round4/Additional_Implementation/hqc-128/src/kem.c:156-159 | the secret is kept under mask 0 and becomes all zero under mask 0xFF |
| HqcKem.KemDec | extern/HQC-Round4/Additional_Implementation/hqc-128/src/kem.c:107-174 | 0 exactly when u and v are the encryption of the message found under G of it and the third part is H of it, and then the secret is K of message, u and v; otherwise -1 and an all-zero secret |
| HqcKem.KemRoundTrip | extern/HQC-Round4/Additional_Implementation/hqc-128/src/kem.c:51-174 | whenever the decoder corrects the noise of this encryption, decapsulation returns 0 and the encapsulated secret |
| HqcCorrectness.SampledVectors | extern/HQC-Round4/Additional_Implementation/hqc-128/src/hqc.c:87-106 | the vectors drawn from the seeds have weights 66, 66, 75, 75 and 75, and no vector has a bit from X^17669 on |
| HqcCorrectness.CorrectsNoise | extern/HQC-Round4/Additional_Implementation/hqc-128/src/hqc.c:145-169 | with the code of code.c the decoder corrects every noise with at most 15 noisy blocks |
| HqcCorrectness.CodeExists | extern/HQC-Round4/Additional_Implementation/hqc-128/src/code.c:28-58 | the hypothesis on the code can be met: every scheme can be given an encoder and a decoder of this kind |
| HqcCorrectness.SamplersExist | extern/HQC-Round4/Additional_Implementation/hqc-128/src/parsing.c:42-90 | the hypothesis on the samplers can be met: wherever the expanders hold enough positions the scheme can be given vectors drawn from them |
| HqcCorrectness.HqcRoundTrip | extern/HQC-Round4/Additional_Implementation/hqc-128/src/kem.c:51-174 | with its own code and samplers, decapsulation returns 0 and the encapsulated secret whenever at most 15 of the 46 blocks of x r2 + r1 y + e have more than 95 bits set |
| Sponge.AbsorbChunks | extern/HQC-Round4/Additional_Implementation/hqc-128/lib/fips202/fips202.c:440-462 | absorbing m1 then m2 is absorbing m1 followed by m2, for every split |
| Sponge.SqueezeChunks | extern/HQC-Round4/Additional_Implementation/hqc-128/lib/fips202/fips202.c:498-523 | squeezing a then b bytes gives the same bytes and the same state as squeezing a + b |
| Sponge.AbsorbReady | extern/HQC-Round4/Additional_Implementation/hqc-128/lib/fips202/fips202.c:440-462 | after absorbing the byte counter is below the rate |
| Sponge.AbsorbIsBlocks | extern/HQC-Round4/Additional_Implementation/hqc-128/lib/fips202/fips202.c:349-462 | byte by byte or block by block: the same state, with the unfinished block added and not permuted |
| Sponge.FinalizeIsPadding | extern/HQC-Round4/Additional_Implementation/hqc-128/lib/fips202/fips202.c:477-483 | the exclusive or of domain byte and final bit is the padded block exactly when they do not fall on one byte or the domain byte is below 128 |
| Sponge.PaddedBlocks | extern/HQC-Round4/Additional_Implementation/hqc-128/lib/fips202/fips202.c:349-380 | absorbing the padded message is absorbing the full blocks and then tail and padding as one block |
| Sponge.OutputIsBlocks | extern/HQC-Round4/Additional_Implementation/hqc-128/lib/fips202/fips202.c:498-523 | byte-wise output is the block-wise squeezing phase, for every length |
| Sponge.IncrementalIsHash | extern/HQC-Round4/Additional_Implementation/hqc-128/lib/fips202/fips202.c:417-523 | init, absorb, finalize, squeeze is SPONGE[f, pad, r] of FIPS 202 section 4, for every message and output length |
| KeccakSponge.KeccakAbsorb | extern/HQC-Round4/Additional_Implementation/hqc-128/lib/fips202/fips202.c:349-380 | the one-shot absorption is the absorption of the padded message but for the last permutation, for every length and domain byte |
| KeccakSponge.SqueezeBlocksInto | extern/HQC-Round4/Additional_Implementation/hqc-128/lib/fips202/fips202.c:395-405 | each block of output is preceded by one permutation; the rest of the buffer is unchanged |
| KeccakSponge.OneShot | extern/HQC-Round4/Additional_Implementation/hqc-128/lib/fips202/fips202.c:660-678 | shake256 is SHAKE256 of FIPS 202 section 6.2 for every input and output length |
| KeccakSponge.Incremental.Init | extern/HQC-Round4/Additional_Implementation/hqc-128/lib/fips202/fips202.c:417-424 | zero state and counter |
| KeccakSponge.Incremental.AbsorbBytes | extern/HQC-Round4/Additional_Implementation/hqc-128/lib/fips202/fips202.c:440-462 | the loop over the rest of blocks is absorption byte by byte, and the counter stays below the rate |
| KeccakSponge.Incremental.FinalizeWith | extern/HQC-Round4/Additional_Implementation/hqc-128/lib/fips202/fips202.c:477-483 | domain byte at the counter, final bit at the end of the block, counter back to zero |
| KeccakSponge.Incremental.Squeeze | extern/HQC-Round4/Additional_Implementation/hqc-128/lib/fips202/fips202.c:498-523 | left-over bytes first, then whole blocks: the next bytes of the stream, and the state after them |
| KeccakSponge.ShakeParameters | extern/HQC-Round4/Additional_Implementation/hqc-128/lib/fips202/fips202.c:660-678 | bit by bit, the domain byte is the suffix 1111 with the first bit of the padding and the last byte is its last bit; the capacity is twice 256 bits |
| ShakeStreams.HashedIsShake | extern/HQC-Round4/Additional_Implementation/hqc-128/src/shake_prng.c:56-62 | what is squeezed after finalizing is SHAKE256 of the absorbed message, however much is drawn |
| ShakeStreams.Hash512 | extern/HQC-Round4/Additional_Implementation/hqc-128/src/shake_ds.c:21-36 | 64 bytes of SHAKE256 over the input followed by the domain byte |
| ShakeStreams.PrngInit | extern/HQC-Round4/Additional_Implementation/hqc-128/src/shake_prng.c:22-29 | the generator starts from entropy, personalisation and domain byte 1 |
| ShakeStreams.SeedExpanderInit | extern/HQC-Round4/Additional_Implementation/hqc-128/src/shake_prng.c:56-62 | the expander starts from the seed and domain byte 2 |
| ShakeStreams.SeedExpander | extern/HQC-Round4/Additional_Implementation/hqc-128/src/shake_prng.c:76-88 | n bytes of the stream come out and the stream moves on to the next multiple of eight |
| FixedWeight.TripleNumber | extern/HQC-Round4/Additional_Implementation/hqc-128/src/vector.c:48-50 | three bytes of the stream are read as one number, most significant byte first |
| FixedWeight.DrawFromStream | extern/HQC-Round4/Additional_Implementation/hqc-128/src/vector.c:40-53 | random number t is three successive bytes of the stream, behind t / weight whole chunks that are each rounded up to a multiple of eight bytes |
| FixedWeight.SupportMembers | extern/HQC-Round4/Additional_Implementation/hqc-128/src/vector.c:52-63 | the sampled positions are exactly the remainders modulo 17669 of the numbers below 16767881 |
| FixedWeight.EvenlySampled | extern/HQC-Round4/Additional_Implementation/hqc-128/src/vector.c:30-60 | every position has exactly 949 accepted 24-bit numbers |
| FixedWeight.NextDraw | extern/HQC-Round4/Additional_Implementation/hqc-128/src/vector.c:42-53 | random number t is read at its place in the buffer, which is refilled exactly when used up; the index stays within 3 * weight |
| FixedWeight.SampleSupport | extern/HQC-Round4/Additional_Implementation/hqc-128/src/vector.c:40-65 | the rejection loop returns the different accepted positions among the first t random numbers, t being the first number that yields enough, and leaves the stream behind the last chunk needed |
| FixedWeight.EnoughDraws | extern/HQC-Round4/Additional_Implementation/hqc-128/src/vector.c:40-65 | a number of draws is enough exactly when the loop ends within it |
| FixedWeight.Gather | extern/HQC-Round4/Additional_Implementation/hqc-128/src/vector.c:73-80 | the word-wise scan gathers the support bits of one word |
| FixedWeight.SetBits | extern/HQC-Round4/Additional_Implementation/hqc-128/src/vector.c:67-82 | exactly the support bits are added to the vector |
| FixedWeight.SetRandomFixedWeight | extern/HQC-Round4/Additional_Implementation/hqc-128/src/vector.c:30-82 | the bits added are those of the sampled support, and the stream moves on by whole chunks |
| FixedWeight.ExactWeight | extern/HQC-Round4/Additional_Implementation/hqc-128/src/vector.c:30-82 | on a zeroed vector exactly weight bits are set, all below 17669 |
| KeySampling.SetRandom | extern/HQC-Round4/Additional_Implementation/hqc-128/src/vector.c:95-102 | 2209 bytes of the stream become the first 17669 bits of the vector, whatever it held before; all other bits are cleared |
| KeySampling.DrewExact | extern/HQC-Round4/Additional_Implementation/hqc-128/src/vector.c:30-82 | vectors drawn one after another have exactly their weights and no bit from X^17669 on |
| KeySampling.DrewOnce | extern/HQC-Round4/Additional_Implementation/hqc-128/src/parsing.c:42-52 | the stream determines the vectors, so drawing them again from the seed gives the same ones |
| KeySampling.SampleSecrets | extern/HQC-Round4/Additional_Implementation/hqc-128/src/parsing.c:42-52 | x and y are drawn one after another from the expander of the 40-byte seed |
| KeySampling.SamplePublic | extern/HQC-Round4/Additional_Implementation/hqc-128/src/parsing.c:81-90 | h is drawn from the expander of the public seed |
| KeySampling.SampleRandomness | extern/HQC-Round4/Additional_Implementation/hqc-128/src/hqc.c:87-106 | r1, r2 and e are drawn one after another from the expander of the first 40 bytes of theta |
| AesTables.InverseSubstitution | extern/tiny_aes/aes.c:81-122 | rsbox undoes sbox on every byte |
| AesColumns.XTimeXor | extern/tiny_aes/aes.c:294-297 | xtime is linear |
| AesColumns.MultiplyXor | extern/tiny_aes/aes.c:320-343 | Multiply is linear in the byte |
| AesColumns.MultiplySum | extern/tiny_aes/aes.c:320-343 | Multiply is linear in the multiplier |
| AesColumns.MixInverse | extern/tiny_aes/aes.c:300-366 | InvMixColumns undoes MixColumns on every column |
| AesColumns.Shortcut | extern/tiny_aes/aes.c:300-313 | the Tm / Tmp shortcut is the matrix entry 2a + 3b + c + d |
| AesCipher.AddRoundKey | extern/tiny_aes/aes.c:237-247 | adds the round key in place to the block and to nothing else |
| AesCipher.SubBytes | extern/tiny_aes/aes.c:251-261 | substitutes every byte of the block in place |
| AesCipher.InvSubBytes | extern/tiny_aes/aes.c:371-381 | substitutes back every byte of the block in place |
| AesCipher.ShiftRows | extern/tiny_aes/aes.c:266-292 | turns row j by j columns to the left in place |
| AesCipher.InvShiftRows | extern/tiny_aes/aes.c:383-409 | turns row j by j columns to the right in place |
| AesCipher.MixColumns | extern/tiny_aes/aes.c:300-313 | multiplies every column by the matrix in place |
| AesCipher.InvMixColumns | extern/tiny_aes/aes.c:350-366 | multiplies every column by the inverse matrix in place |
| AesCipher.AddKeyTwice | extern/tiny_aes/aes.c:237-247 | adding a round key twice changes nothing |
| AesCipher.ShiftedInverse | extern/tiny_aes/aes.c:266-409 | InvShiftRows undoes ShiftRows |
| AesCipher.MixedInverse | extern/tiny_aes/aes.c:300-366 | InvMixColumns undoes MixColumns on the whole state |
| AesCipher.RoundsUndone | extern/tiny_aes/aes.c:413-461 | from the state of round n before its key, the inverse rounds lead back to the plain block, by induction over the rounds |
| AesCipher.Cipher | extern/tiny_aes/aes.c:413-436 | the in-place loop with its early exit is the cipher of FIPS 197 section 5.1 |
| AesCipher.InvCipher | extern/tiny_aes/aes.c:439-461 | the in-place loop is the inverse cipher of section 5.3 |
| AesCipher.DecryptEncrypt | extern/tiny_aes/aes.c:413-461 | InvCipher undoes Cipher for every block and every expanded key |
| AesCipher.FourteenRounds | extern/tiny_aes/aes.c:413-436 | the cipher written out round by round: fourteen rounds, no MixColumns in the last, every round key once and in order |
| AesCipher.ShiftedValues | extern/tiny_aes/aes.c:266-290 | the sixteen bytes after ShiftRows, one by one |
| AesField.XTimeBits | extern/tiny_aes/aes.c:294-297 | bit by bit, xtime shifts up by one and, when x^7 drops out, adds x^4 + x^3 + x + 1 |
| AesField.MultiplyIsProduct | extern/tiny_aes/aes.c:319-336 | Multiply(a, y) for y below 32 is the sum of the multiples of a by powers of x that the bits of y pick |
| AesField.ProductIsRemainder | extern/tiny_aes/aes.c:294-336 | that sum is the carry-less product of the two bytes modulo x^8 + x^4 + x^3 + x + 1 |
| AesField.RemainderUnique | extern/tiny_aes/aes.c:294-336 | and it is the only byte that leaves a multiple of x^8 + x^4 + x^3 + x + 1 |
| AesField.MixIsMatrix | extern/tiny_aes/aes.c:300-313 | MixColumns multiplies every column by the matrix with rows 02 03 01 01 turned, in that field |
| AesField.InvMixIsMatrix | extern/tiny_aes/aes.c:350-366 | InvMixColumns multiplies every column by the matrix with rows 0e 0b 0d 09 turned, in that field |
| AesField.SBoxIsInverse | extern/tiny_aes/aes.c:79-96 | every entry of sbox is the affine image of the field inverse of its index, with 0 for 0 |
| AesField.AffineBits | extern/tiny_aes/aes.c:79-96 | the affine map bit by bit: five bits of the byte, turned, and the constant 63 |
| AesField.RoundConstants | extern/tiny_aes/aes.c:120-121 | round constant i is x^(i - 1) in the field |
| AesContext.ExpandedWords | extern/tiny_aes/aes.c:146-217 | the expanded key byte by byte: the key, then each word from the one eight back and the previous one, turned, substituted and with the round constant at every eighth word, only substituted halfway between |
| AesContext.ExpandKey | extern/tiny_aes/aes.c:146-217 | the 240 bytes are the 60 words of the key expansion of FIPS 197 section 5.2 for a 32-byte key |
| AesModes.CbcRoundTrip | extern/tiny_aes/aes.c:501-529 | CBC decryption undoes CBC encryption for every multiple of 16 bytes |
| AesModes.CbcEncryptSplit | extern/tiny_aes/aes.c:501-514 | two encryption calls split at a block boundary, the second with the IV the first leaves, are one |
| AesModes.CbcDecryptSplit | extern/tiny_aes/aes.c:516-529 | two decryption calls split at a block boundary are one |
| AesModes.CbcBlock | extern/tiny_aes/aes.c:501-514 | every cipher block is the encryption of the message block plus the cipher block before, or the IV |
| AesModes.SuccAddsOne | extern/tiny_aes/aes.c:553-563 | the carry loop adds one modulo 256^n |
| AesModes.AdvanceAdds | extern/tiny_aes/aes.c:553-563 | after n blocks the counter is the IV plus n modulo 2^128 |
| AesModes.CtrTwice | extern/tiny_aes/aes.c:538-569 | CTR applied twice with the same key and IV is the identity for every length |
| AesModes.CtrByte | extern/tiny_aes/aes.c:538-569 | byte i is masked with byte i mod 16 of the encryption of the block whose number is that of the IV plus i / 16 |
| AesModes.CtrSplit | extern/tiny_aes/aes.c:538-569 | two CTR calls split at a block boundary are one |
| AesContext.Context.SetIv | extern/tiny_aes/aes.c:229-232 | the IV is replaced and the key schedule kept |
| AesContext.Context.CbcEncryptBuffer | extern/tiny_aes/aes.c:501-514 | the pointer-chained loop in place is CBC encryption, and the context keeps the last cipher block |
| AesContext.Context.CbcDecryptBuffer | extern/tiny_aes/aes.c:516-529 | the in-place loop is CBC decryption, and the context keeps the last cipher block |
| AesContext.Context.IncrementIv | extern/tiny_aes/aes.c:553-563 | the carry loop on the stored IV |
| AesContext.Context.CtrXcryptBuffer | extern/tiny_aes/aes.c:538-569 | byte i is masked with byte i of the key stream, and the IV moves on by the blocks used |
| Protocol.HeaderLayout | src/common/protocol.h:88-108 | the ten header bytes one by one, and the payload behind them |
| Protocol.ParseSerialize | src/PQC/handshake_fsm.c:581-609 | parsing a written packet gives its fields back exactly when they are in range, whatever follows it |
| Protocol.SerializeParse | src/PQC/handshake_fsm.c:581-609 | what parses is what writing its fields produces, when the reserved byte is zero |
| Fragmentation.TxCount | src/PQC/fragmentation.c:77-91 | the number of 64-byte fragments of a message of 1 to 4608 bytes, and 0 for any other length |
| Fragmentation.AddedHolds | src/PQC/fragmentation.c:17-60 | adding any fragment of the message, new or repeated, keeps bitmap, counters and bytes consistent with it and sets its bit |
| Fragmentation.CompleteMeansMessage | src/PQC/fragmentation.c:62-75 | complete exactly when every bit is set; then buffer and length are the message |
| Fragmentation.Reassembly | src/PQC/fragmentation.c:17-137 | for every message and every sequence of its fragments, in any order with repetitions: complete exactly when all indices have arrived, and then exactly the message |
| Fragmentation.FragmentRx.Add | src/PQC/fragmentation.c:17-60 | the context in place after one fragment, and whether it was accepted |
| Fragmentation.FragmentRx.Reset | src/PQC/fragmentation.c:12-15 | the context is empty again |
| Nack.BuildFromRx | src/common/nack.c:20-48 | the loop lists exactly the first sixteen absent indices in ascending order |
| Nack.AbsentComplete | src/common/nack.c:20-48 | every absent index is in the list of absent indices |
| Nack.DecodeLoop | src/common/nack.c:80-110 | the decoding loop with its early exit returns the value form: the list, or nothing when a length or an index is out of range |
| Nack.NackRoundTrip | src/common/nack.c:20-110 | a built NACK survives encoding, one fragment and decoding unchanged |
| Nack.DecodeInRange | src/common/nack.c:80-110 | decoded indices are below the decoded total |
| Nack.ReceiveServed | src/PQC/handshake_fsm.c:447-534 | serving a NACK sets exactly the requested bits and keeps the rest |
| Nack.RoundShrinks | src/PQC/handshake_fsm.c:347-534 | a loss-free round shrinks what is missing by exactly min(16, missing) |
| Nack.RecoveryRounds | src/PQC/handshake_fsm.c:347-534 | reassembly completes after exactly ceil(missing / 16) loss-free rounds, with the original bytes |
| Nack.ThresholdInRange | src/PQC/handshake_fsm.c:150-204 | the received-count threshold never exceeds total_frags, so it does not wrap at 256 |
| TxQueue.ContentsSize | src/PQC/PQC.c:48-123 | the number of queued packets equals the slots exactly when all are active, and 0 exactly when none is |
| TxQueue.ControlFirst | src/PQC/PQC.c:31-93 | a queued acknowledgement, NACK or key request is never overtaken by anything else, nor a fragment or reading by a report |
| TxQueue.MatchedPackets | src/PQC/PQC.c:125-157 | what a drop looks for, in terms of the packet queued: node, type and message id, or the node alone |
| TxQueue.Queue.constructor | src/PQC/PQC.c:107-113 | an empty queue with nothing accepted, sent or dropped |
| TxQueue.Queue.FindFreeSlot | src/PQC/PQC.c:48-61 | a free slot is found exactly when tx_count < 96 |
| TxQueue.Queue.SelectSlot | src/PQC/PQC.c:63-93 | the best priority present, and of that class a node other than the last one served whenever it has one |
| TxQueue.Queue.DropMatching | src/PQC/PQC.c:125-157 | exactly the matching packets leave, counted, and move to the dropped ones |
| TxQueue.Queue.Drop | src/PQC/PQC.c:125-142 | the packets of one node, type and message id |
| TxQueue.Queue.DropNode | src/PQC/PQC.c:144-157 | the packets of one node |
| TxQueue.Queue.Process | src/PQC/PQC.c:159-182 | sends one best packet and empties its slot whenever the queue is not empty; accepted = queued + sent + dropped is kept |
| TxQueue.Queue.SendFragment | src/PQC/PQC.c:184-215 | a well-formed packet is accepted exactly when a slot is free, and otherwise nothing changes |
| TxQueue.Queue.FragmentTx | src/PQC/fragmentation.c:93-137 | with room for all fragments, exactly ceil(len / 64) packets are queued and the call does not fail; it succeeds only then; otherwise the first fragments that fit stay queued |
| TxQueue.EntriesParse | src/PQC/fragmentation.c:93-137 | the headers of the queued fragments parse back to type, node, id, index and total |
| SessionManager.Table.Find | src/PQC/session_manager.c:80-91 | the entry of the node, or none exactly when no entry is the node's |
| SessionManager.Table.GetOrCreate | src/PQC/session_manager.c:102-120 | the node's entry; a fresh one in a free entry when there is none; none exactly when the table is full of others |
| Handshake.FindSlot | src/PQC/handshake_fsm.c:95-110 | the session's slot, or none exactly when it holds none |
| Handshake.GetSlot | src/PQC/handshake_fsm.c:62-93 | the session's slot with nothing changed; else the first inactive slot, freshly started, the other one unchanged; none exactly when both are held by others |
| Handshake.DueAgain | src/PQC/handshake_fsm.c:150-204 | after a NACK the next one is due exactly when everything asked for has arrived or four seconds have passed: the eight-bit threshold does not wrap |
| Handshake.DueAfterRound | src/PQC/handshake_fsm.c:150-204 | a loss-free answer makes the next NACK due at once, whichever fragment came last |
| HandshakeDevice.Device.RxSlotsGc | src/PQC/handshake_fsm.c:37-60 | slots idle for longer than the timeout are emptied |
| HandshakeDevice.Device.RxSlotGet | src/PQC/handshake_fsm.c:62-93 | collection, then the session's slot or the first free one |
| HandshakeDevice.Device.RxSlotRelease | src/PQC/handshake_fsm.c:128-148 | the session's slot is emptied and no other |
| HandshakeDevice.Device.Transmit | src/PQC/handshake_fsm.c:206-211 | with room in the queue, every fragment of the message is queued and the call succeeds |
| HandshakeDevice.Device.Ack | src/PQC/handshake_fsm.c:317-345 | all or nothing: the acknowledgement is queued and a message id used exactly when there is room |
| HandshakeDevice.Device.Nack | src/PQC/handshake_fsm.c:347-403 | all or nothing: the NACK of what is missing, and how many indices it asks for |
| HandshakeDevice.Device.NoteNackSent | src/PQC/handshake_fsm.c:182-204 | the slot remembers time, received count and number asked for |
| HandshakeDevice.Device.RetransmitNack | src/PQC/handshake_fsm.c:447-534 | the requested slices of the pending message, or a postponement when the queue has no room, or a refusal |
| HandshakeDevice.Device.SendSlices | src/PQC/handshake_fsm.c:405-534 | exactly the requested fragments with the original bytes are queued, marked as retries |
| HandshakeDevice.Device.CompletePk | src/PQC/handshake_fsm.c:815-879 | the node encapsulates and sends the ciphertext, or fails |
| HandshakeDevice.Device.CompleteAck | src/PQC/handshake_fsm.c:881-906 | established exactly when the acknowledgement names the pending ciphertext |
| HandshakeDevice.Device.CompleteCt | src/PQC/handshake_fsm.c:908-965 | the root decapsulates, is established and acknowledges, or fails |
| HandshakeDevice.Device.CollectFragment | src/PQC/handshake_fsm.c:760-973 | a fragment in its slot: refused, kept, or the message finished |
| HandshakeDevice.Device.RoutePacket | src/PQC/handshake_fsm.c:702-973 | the checks in front of a NACK or a fragment, and the duplicate ciphertext |
| HandshakeDevice.Device.HandleFragment | src/PQC/handshake_fsm.c:681-973 | the whole handler on packet bytes, slots, session and queue updated in place |
| HandshakeDevice.Device.StartRoot | src/PQC/handshake_fsm.c:611-679 | the public key is queued and awaited, or refused without room, or failed without a key pair |
| HandshakeDevice.Device.ResendMessage | src/PQC/handshake_fsm.c:1036-1090 | a retry of the whole message, or a postponement without room |
| HandshakeDevice.Device.RequestMissing | src/PQC/handshake_fsm.c:1005-1027 | the root asks again for what is missing of the ciphertext, or gives up |
| HandshakeDevice.Device.RetryPending | src/PQC/handshake_fsm.c:975-1095 | the whole retry function in place |
| Drivers.NodeDriver.RequestPk | node_main.c:85-105 | the request is queued and awaited exactly when the session is idle, none is in flight and a slot is free |
| Drivers.NodeDriver.Receive | node_main.c:256-282 | a packet with a valid header goes through the handler, and the in-flight flag is cleared when no request is pending any more; one that does not parse only empties idle slots |
| Drivers.NodeDriver.Tick | node_main.c:129-157 | the retry unless established, then the reset of a failed session |
| Drivers.RootDriver.ReceiveGetPk | server_main.c:619-656 | a request starts an idle session, restarts a failed, waiting or established one after dropping its packets, and is ignored otherwise |
| Drivers.RootDriver.Receive | server_main.c:576-714 | the whole callback for a packet of the session's node, with exactly the packets that a restart or the start of a ciphertext drops; a packet that does not parse still restarts, or moves the pending message, and sends nothing else |
| Drivers.RootDriver.Tick | server_main.c:148-184 | the retry unless established; a failed session is reset and its packets dropped |
| Drivers.KeptPackets | server_main.c:619-666 | which packets the start of an attempt or of a ciphertext takes from the queue: all of the node, or exactly those of the pending key |
| HandshakeRules.PartIsFragment | src/PQC/fragmentation.c:93-137 | the properties of a fragment, byte by byte from 64 i on, leave no choice: the sender builds exactly that packet |
| HandshakeRules.DecodeExact | src/common/nack.c:80-110 | the decoder accepts exactly the payloads with type, id, total, count and 1 to 16 indices below the total |
| HandshakeRules.NackServed | src/PQC/handshake_fsm.c:447-534 | a NACK for the pending key or ciphertext: the handler sends one packet for each index asked for, in order, with the message's own 64 bytes and the retry flag, or puts the deadline off by a second without room |
| HandshakeRules.NackRefused | src/PQC/handshake_fsm.c:447-534 | any other NACK of the node is refused without effect |
| HandshakeRules.FirstMissingIsFirst | src/common/nack.c:20-48 | the indices asked for are the absent ones in ascending order: all of them, or sixteen with every other absent index above them |
| HandshakeRules.NackBuilt | src/PQC/handshake_fsm.c:347-403 | one packet that asks for them, with the next message id, whenever a slot is free |
| HandshakeRules.RetryGetPk | src/PQC/handshake_fsm.c:1029-1037 | the node's retry sends exactly one request with the retry flag and counts |
| HandshakeRules.RetryCiphertext | src/PQC/handshake_fsm.c:1068-1089 | the node's retry sends all 71 fragments of the ciphertext again with the pending id and the retry flag, and nothing else |
| HandshakeRules.RetryKey | src/PQC/handshake_fsm.c:1039-1066 | the root's retry sends all 36 fragments of the key again with the pending id and the retry flag, or fails without a key pair |
| HandshakeRules.RetryAsks | src/PQC/handshake_fsm.c:1005-1020 | the root's retry while a ciphertext is incomplete sends one NACK for the first min(16, missing) absent fragments and renews slot and deadline; other slots are kept |
| HandshakeRules.RetryGivesUp | src/PQC/handshake_fsm.c:1005-1027 | without an incomplete reception that is still fresh the session fails and sends nothing |
| HandshakeRules.RetryWaits | src/PQC/handshake_fsm.c:975-989 | before the deadline nothing happens; a queue that is not empty puts the retry off by a second |
| HandshakeRules.RetriesExhausted | src/PQC/handshake_fsm.c:991-1001 | after three retries the session fails and sends nothing, and what other sessions are receiving is kept |
| HandshakeRules.TimerTick | src/PQC/handshake_fsm.c:975-1027 | with the deadline where the slot becomes too old, the timer asks for the missing fragments exactly at that tick and gives up at any later one |
| MessageRules.GetPkAnswered | server_main.c:619-656 | in every phase the root answers a request with all 36 fragments of the key in a fresh session that waits for the ciphertext, given a key pair and room; otherwise it is idle or failed and sends nothing |
| MessageRules.Unexpected | src/PQC/handshake_fsm.c:702-741 | a key or an acknowledgement at the wrong time, a ciphertext that is not awaited, or a packet of another node changes nothing |
| MessageRules.Numbered | src/PQC/handshake_fsm.c:707-712 | a node without a number takes it from the first packet and then handles it as its own |
| MessageRules.DuplicateCiphertext | src/PQC/handshake_fsm.c:728-735 | an established root acknowledges again at the first and the last fragment of a repeated ciphertext, and keeps everything else |
| MessageRules.Kept | src/PQC/handshake_fsm.c:760-810 | a fragment that leaves the message incomplete is kept, and exactly when a NACK is due and there is room one goes out |
| MessageRules.KeyComplete | src/PQC/handshake_fsm.c:815-879 | with the last fragment of the key the node encapsulates, sends all fragments of the ciphertext and waits for the acknowledgement, or fails; what other sessions are receiving is kept |
| MessageRules.AcknowledgementComplete | src/PQC/handshake_fsm.c:881-906 | the acknowledgement establishes the node exactly when it is the pending ciphertext's id, and otherwise changes nothing |
| MessageRules.CiphertextComplete | src/PQC/handshake_fsm.c:908-965 | with the last fragment of the ciphertext the root holds the decapsulated secret, is established and acknowledges that id, or fails |
| MessageRules.NoSlot | src/PQC/handshake_fsm.c:62-93 | with both slots fresh and held by others the fragment is lost and nothing changes |
| MessageRules.Misfit | src/PQC/fragmentation.c:17-45 | a fragment of another message, or a malformed one, leaves the reception as it was |
| MessageRules.Stray | src/PQC/handshake_fsm.c:967-972 | a whole message that this side does not wait for only gives the slot back |
| DriverRules.InFlightKept | node_main.c:85-282 | a request is in flight exactly while the node waits for the key: every step of the node driver keeps this |
| DriverRules.Requested | node_main.c:85-105 | so the node asks exactly when it is idle and the queue has room, and then waits two minutes |
| DriverRules.NodeStartsOver | node_main.c:129-157 | a failed node, or one whose third retry has run out, is blank after the tick and asks again with the next free slot |
| DriverRules.Ticked | node_main.c:129-157 | an established side leaves the tick alone; any other sends exactly what the retry sends |
| DriverRules.RootStartsOver | server_main.c:148-184 | no failed session outlives a tick of the root: it becomes blank and keeps slots and key pair |
| DriverRules.CiphertextBegins | server_main.c:659-670 | the first fragment of a ciphertext makes it the pending message with two more minutes, and is handled like any other |
| DriverRules.Unparsed | server_main.c:619-708 | a packet with a valid header that does not parse: a request is still answered with the whole key, a ciphertext still moves the pending message, and nothing else happens but collection |
| DriverRules.PassedBy | server_main.c:576-714 | readings and reports do not touch the session; everything else reaches the handler unchanged |
| NackRecovery.Served | src/PQC/handshake_fsm.c:447-534 | what one side's handler sends for the other side's NACK is exactly the answer to it |
| NackRecovery.AnswerShrinks | src/PQC/handshake_fsm.c:681-973 | the handler fed with those packets: sixteen fewer are missing, and the last packet brings out the next NACK |
| NackRecovery.AnswerCompletes | src/PQC/handshake_fsm.c:681-973 | with at most sixteen missing the last packet of the answer completes the message |
| NackRecovery.RootRecovers | src/PQC/handshake_fsm.c:347-973 | handler against handler, the root is established with the secret in the ciphertext after exactly ceil(missing / 16) rounds, and not before |
| NackRecovery.NodeRecovers | src/PQC/handshake_fsm.c:347-973 | handler against handler, the node encapsulates to the key after exactly ceil(missing / 16) rounds, and not before |
| KeyExchange.HandleCoherent | src/PQC/handshake_fsm.c:681-973 | the handler keeps role, state, pending message, waiting flag, established flag and retry count in agreement |
| KeyExchange.RetryCoherent | src/PQC/handshake_fsm.c:975-1095 | so does the retry function |
| AttemptEnds.NodeStepsCoherent | node_main.c:59-157 | every step of the node driver keeps the session coherent, retry_count <= 3 included |
| AttemptEnds.RootStepsCoherent | server_main.c:148-184 | every step of the root driver keeps the session coherent |
| AttemptEnds.RetryHasMessage | src/PQC/handshake_fsm.c:975-1095 | a due retry always has a pending message: the last return is unreachable |
| AttemptEnds.RetryHasRoom | src/PQC/handshake_fsm.c:975-1095 | a retry acts only on an empty queue, so its message always fits |
| AttemptEnds.RoundDecreases | src/PQC/handshake_fsm.c:975-1095 | a round without deliveries fails the session or decreases (3 - retry_count, tx_count, deadline - now), and counts at most one retry |
| AttemptEnds.AttemptFails | src/PQC/handshake_fsm.c:975-1095 | whatever the pace of clock and queue, a pending session that receives nothing is failed after at most three counted retries |
| KeyAgreement.StepInv | server_main.c:576-714 | every event keeps the invariant over both sides and every packet ever sent |
| KeyAgreement.RunInv | server_main.c:576-714 | the invariant holds in every state of every run |
| KeyAgreement.KeyAgreement | src/PQC/handshake_fsm.c:681-973 | in every state of every run under loss, duplication and reordering: an established root holds the secret the node encapsulated, and an established node holds it too and only after the root derived it |
| KeyAgreement.SameSecret | src/PQC/handshake_fsm.c:681-973 | when both sides are established they hold the same secret |
| KeyAgreement.ReachableStocked | src/PQC/handshake_fsm.c:975-1095 | in every reachable state the ciphertext a retry may need is there and both sessions are coherent |
| HandshakeCompletes.CollectMore | src/PQC/handshake_fsm.c:760-810 | in-order fragments only fill the slot, no NACK goes out |
| HandshakeCompletes.NodeAnswers | src/PQC/handshake_fsm.c:815-879 | the last key fragment makes the node encapsulate and send the whole ciphertext |
| HandshakeCompletes.RootAcknowledges | src/PQC/handshake_fsm.c:908-965 | the last ciphertext fragment establishes the root and sends the acknowledgement |
| HandshakeRuns.HandshakeCanComplete | src/PQC/handshake_fsm.c:681-973 | for every lawful key encapsulation some run of the two drivers establishes both sides with the encapsulated secret |
| HandshakeRuns.LostKey | src/PQC/handshake_fsm.c:1039-1066 | the whole first key is lost: some run in which only retried key fragments reach the node establishes both sides with the secret |
| HandshakeRuns.LostCiphertext | src/PQC/handshake_fsm.c:1068-1089 | the whole first ciphertext is lost: some run in which only retried ciphertext fragments reach the root establishes both sides |
| HandshakeRuns.LostRequest | src/PQC/handshake_fsm.c:1029-1037 | the first request is lost: some run in which only the repeated request reaches the root establishes both sides |
| HandshakeRuns.RepeatedRequest | server_main.c:641-651 | a request that arrives again while the root waits restarts it, and the run still establishes both sides |
| HandshakeRuns.LostAcknowledgement | src/PQC/handshake_fsm.c:728-735 | the first acknowledgement is lost: the ciphertext sent again brings out another one, and both sides are established |
| LossyRuns.LostFragments | src/PQC/handshake_fsm.c:347-534 | whichever fragments of the first ciphertext are lost, the last one excepted: a run in which the root never gets them but through NACKs establishes both sides |
| CryptoWorker.MaskedTwice | src/PQC/crypto_worker.c:68-82 | encrypting twice under one counter is the identity |
| CryptoWorker.IvInputCounter | src/PQC/crypto_worker.c:50-66 | what is hashed to the initial counter block is the secret followed by the four bytes of the counter, most significant first |
| CryptoWorker.IvInputInjective | src/PQC/crypto_worker.c:50-66 | different counters are hashed from different inputs |
| CryptoWorker.MaskedByte | src/PQC/crypto_worker.c:41-82 | byte by byte: the key is hashed from the secret, the first block from secret and counter, and byte i is masked with the encryption of that block's number plus i / 16 |
| CryptoWorker.DeriveAesKey | src/PQC/crypto_worker.c:41-48 | 32 bytes of SHAKE-256 of the secret |
| CryptoWorker.DeriveAesIv | src/PQC/crypto_worker.c:50-66 | 16 bytes of SHAKE-256 of the secret and the counter's bytes, copied together in place |
| CryptoWorker.CtrXcrypt | src/PQC/crypto_worker.c:68-82 | the first length bytes of the buffer under key and IV, the rest unchanged |
| TempWindow.LayoutBytes | src/PQC/PQC.c:262-266 | the counter lies in memory with its least significant byte first |
| TempWindow.LayoutCounter | src/PQC/PQC.c:262-266 | the counter written into the payload is read back |
| TempWindow.OpenSealed | src/PQC/PQC.c:347-412 | a sealed measurement is accepted under its own counter, unchanged, exactly when that counter is one of the sixteen tried and no earlier one matches by accident |
| TempWindow.OpenMoves | src/PQC/PQC.c:347-412 | an accepted counter lies in the window and the next expected one is beyond it; otherwise nothing moves |
| TempWindow.WireSealed | src/PQC/PQC.c:277-285 | the packet passes the checks in front of the window and carries the sealed payload |
| TempWindow.AcceptedIncrease | src/PQC/PQC.c:347-412 | whatever packets arrive, the accepted counters strictly increase (without 32-bit wrap) |
| TempWindow.FewLostAccepted | src/PQC/PQC.c:242-412 | with at most fifteen packets lost in a row every packet that arrives is accepted with exactly its measurement |
| TempWindow.Sender.SendTemp | src/PQC/PQC.c:242-297 | queues one packet exactly when established and a slot is free; queued packets carry the counters 0, 1, 2, .. |
| TempWindow.Receiver.TryWindow | src/PQC/PQC.c:371-412 | the trial loop: the first of sixteen counters that matches, and the counter moved behind it |
| TempWindow.Receiver.HandleTemp | src/PQC/PQC.c:347-412 | the checks and the window on packet bytes |

## Left out

- Contiki processes, UDP, routing, sensors, GPIO and printed output: input and output.
- Metrics, impact windows and report packets: bookkeeping that no decision of the protocol depends on.
- Peer addresses and `last_activity` of a session: stored, not used by the handshake.
- Agreement across attempts: `session_reset` restarts message ids and keeps the reception slot, so run theorems are about one node attempt, in which the root may restart any number of times.
- First-in first-out order and freedom from starvation of the transmit queue: slots wrap and the scan starts at 0, so neither holds.
- Splitting CTR calls inside a block: the rest of the key stream is dropped between calls, so it does not hold.
- `radix_big` and the branch of `fft_rec` for at most three coefficients: not reached with 16 coefficients.
- `mod`, `gf_mod` and `compute_generator_poly`: the table index reductions and the generator of the table; the table itself is proved to have the thirty roots.
- Keccak-f itself, and the quality of the randomness.
- The decryption failure probability: correctness is stated for noise with at most 15 noisy blocks, not for how often that happens.
- The hash inputs of `HqcKem`: the hashes are functions of the message and the vectors, `ShakeStreams.Hash512` is the hash on bytes.
- HqcKem.KemDec: compares all bytes of u where the source compares the first 2209; the rest are zero on both sides there (`HqcKem.ComparedBytes`).
- Byte layout of HQC keys and ciphertexts (parsing.c): they are records of their parts.
- AES-128 and AES-192: the build defines AES256.
- `crypto_worker_secure_zero` and other wiping of buffers: no later value depends on it.
- Fragmentation.Reassembly: stated for fragments the sender functions make; `fragment_rx_add` alone accepts shorter inner fragments.
- KeyAgreement.KeyAgreement: the root's session of one node is modelled together with arbitrary use of the other reception slot by other sessions, not the ten sessions side by side.
- HandshakeDevice.Device.HandleFragment: one session per device, so the slots of other sessions enter only through the slot owner numbers.
- HandshakeDevice.Device.RetryPending: the key encapsulation is called as a function, so the shared ciphertext buffer of the root is not part of the state.
- FixedWeight.SampleSupport: a stream that never yields enough different positions would keep the source looping; the precondition excludes it.
- TempWindow.AcceptedIncrease: stated without 32-bit wrap of the counters.
- LossyRuns.LostFragments: the last fragment of the ciphertext is not among the lost ones, because without it the root sends no NACK (`HandshakeRules.TimerTick`).
