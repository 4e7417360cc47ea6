# Verified models of Project Solomon

This Dafny project models the hard parts of Project Solomon and proves what they are for. Every
statement is for all inputs, all streams, all hash functions or all runs; nothing is bounded except
where the code itself bounds it.

* **ML-DSA-65** (`MlDsa*.dfy`, `MaskSelection.dfy`, `ZetaTable.dfy`, `BitPacking.dfy`,
  `Numerals.dfy`). Montgomery arithmetic with sign masks, the shuffled in-place number-theoretic
  transforms, rounding and hints, every packing pair, challenge and secret sampling, key generation,
  the signing loop and verification. The transforms are shown to evaluate at the powers 1753^(2
  rev(i) + 1), the roots of X^256 + 1, so multiplication through them is the product of the ring;
  the verification equation then holds over that ring, and signatures verify. `MlDsaLayout.dfy`,
  `MlDsaExpansion.dfy` and `MlDsaReference.dfy` state the same scheme from outside: packed
  polynomials as numbers, samples by their place in the stream, hash inputs byte by byte,
  verification over the ring, and that a signature binds key and message short of a hash collision.
  The inline hint of the signing loop decides u = +-gamma2 with w1 != 0 against Algorithm 39 of FIPS
  204; the model keeps the code and proves that this boundary is exactly where it fails, and that
  verify-before-release catches it.
* **Keccak sponge** (`KeccakLanes.dfy`, `KeccakSponge.dfy`, `KeccakReference.dfy`). The buffered
  sponge refines SPONGE with pad10*1 of FIPS 202, sections 4, 5.1 and 6.2, over an arbitrary
  permutation, and absorbing is Algorithm 8 on the bytes of the state.
* **Goldilocks transforms** (`Goldilocks.dfy`, `Fourier.dfy`, `BitReversal.dfy`, `RadixTwo.dfy`,
  `MatrixLayout.dfy`, `FourStep.dfy`, `LowDegreeExtension.dfy`, `FrequencyDecimation.dfy`,
  `DomainExtension.dfy`). Word-level field arithmetic, the radix-2 and four-step transforms in
  place, and the low-degree extension: what its two transforms compute, and that with them the
  extension of a sequence is the sequence repeated.
* **FRI and the proof protocol** (`FriFolding.dfy`, `Merkle.dfy`, `Transcript.dfy`, `Stark.dfy`,
  `StarkCompleteness.dfy`, `StarkTranscript.dfy`). Folding, commitments, transcript, openings and
  verification over an arbitrary hash function; honest proofs are accepted when the challenges are
  not degenerate, and the one query they cannot answer, at a padding row, is pinned down; every hash
  input of the protocol is given byte by byte.
* **ISO 8583** (`Iso8583.dfy`, `Iso8583Exact.dfy`, `Iso8583Layout.dfy`, `Iso8583Text.dfy`,
  `ProxyExchange.dfy`). Both wire forms, their layout by field number, and the exchange of signed
  messages between the two proxies.
* **Audit log and aggregation** (`AuditLog.dfy`, `TrimmedMean.dfy`). The log worker as a step
  machine with its hash chain, and the trimmed mean over the reals.

`Congruence.dfy` and `Evaluation.dfy` hold the modular arithmetic and the polynomial evaluation that
both transform engines rest on; `Basics.dfy` holds optional values and byte strings.

## How the models are built

Code that works in place is a method on an array or a class, proved equal to a function of the old
contents; the theorems are about those functions. Word widths, wrap-around, truncation and masks are
written out. The masks of `scalar.rs` are part of the model (`MlDsaScalar.SignMaskSelects`); the
masked selections of the other files are written as branches, which the lemmas of
`MaskSelection.dfy` justify on 32-bit words.

Parameters of the models, over which every statement quantifies:

* SHAKE-128 and SHAKE-256 map an input to an endless byte stream. `draws` bounds the bytes a
  sampling loop reads and `attempts` the passes of the signing loop; running out is a result of its
  own, so what is proved about signing is partial correctness.
* The hash of the Merkle trees and the transcript, the quotient evaluator, the Keccak permutation,
  the audit hasher, and the receiver's signature, hash and clock checks are arbitrary functions.
* The seed of the transform shuffle is arbitrary, so its derivation from the coefficients does not
  matter.
* Whether the log file can be opened is a parameter of each logging step.

Where code and documentation differ, the models follow the code, and each difference has its lemma:

* `parse` guesses a hex bitmap, so some binary messages do not come back
  (`Iso8583Exact.SerializeBinaryExact`, `BinaryWitness`); it also accepts a plus sign in a length
  prefix and in the second half of a hex bitmap (`Iso8583Exact.PrefixExact`, `PlusWitness`).
* The BCD parser stops the program when the type holds a padding nibble
  (`Iso8583Exact.ParseBcdPanics`).
* The FRI prover reduces the position of a layer path by the number of tree levels
  (`StarkCompleteness.LayerPathByPosition`, `StoredPathFails`); the verifier does not look at these
  paths.
* `generate_lde` pads coefficients that are in bit-reversed order, so it repeats its input instead
  of extending it (`DomainExtension.LdeRepeats`); it does what it is documented to do exactly for
  constant input or blow-up 1 (`LdeExtendsExactly`).
* The transcript of the proof protocol separates key and message only by their lengths
  (`StarkTranscript.FirstStateBinds`, `SharedTranscript`).
* With 2^32 evaluations the verifier asks for a root of unity that does not exist
  (`StarkCompleteness.LargestDomainRefused`).
* The inline hint of the signing loop (`MlDsaStandard.LoopHintIsStandard`, `BoundaryWitness`).
* A dropped audit record breaks the chain once writing resumes (`AuditLog.KeptChainedExactly`,
  `OutageBreaksChain`), and recovery from an empty segment starts again at the genesis hash
  (`AuditLog.RestartContinues`).

## Model

| member | source | states |
|---|---|---|
| MlDsaScalar.MontgomeryReduceCorrect | solomon-core/src/crypto/scalar.rs:70-97 | For every product within 2^31 * q the masked reduction is canonical and times 2^32 congruent to the product; both mask corrections and the end value t = q are covered. |
| MlDsaScalar.SMulCong | solomon-core/src/crypto/scalar.rs:132-136 | Scalar multiplication is a * b / 2^32 modulo q. |
| MlDsaScalar.SAddCong | solomon-core/src/crypto/scalar.rs:103-113 | The masked addition is the sum modulo q. |
| MlDsaScalar.SSubCong | solomon-core/src/crypto/scalar.rs:119-128 | The masked subtraction is the difference modulo q. |
| MlDsaScalar.SNegCong | solomon-core/src/crypto/scalar.rs:142-155 | The masked negation is the negative modulo q, with 0 mapped to 0. |
| ZetaTable.ZetaPower | solomon-core/src/crypto/poly.rs:13-270 | Entry k of the table is 2^32 * 1753^rev(k) modulo q, rev reversing eight bits: every entry is checked by its number. |
| ZetaTable.HalfTurn | solomon-core/src/crypto/poly.rs:13-270 | 1753^256 = -1 modulo q. |
| ZetaTable.Squares | solomon-core/src/crypto/poly.rs:13-270 | From those powers, every entry squares to its parent: entry 2k to entry k, entry 2k+1 to minus entry k, in Montgomery form. |
| ZetaTable.Mirrors | solomon-core/src/crypto/poly.rs:13-270 | Entry times mirrored entry is -2^64 modulo q in every stage, which makes the inverse twiddles inverses. |
| MlDsaNtt.Shuffle | solomon-core/src/crypto/poly.rs:412-424 | Whatever the seed, Fisher-Yates over the scaled generator yields every butterfly index exactly once. |
| MlDsaNtt.RunStage | solomon-core/src/crypto/poly.rs:426-452 | Running the 128 butterflies of a stage in place in any order gives the stage defined position by position. |
| MlDsaNtt.NttInPlace | solomon-core/src/crypto/poly.rs:405-453 | The shuffled in-place transform gives Ntt of the old coefficients for every seed. |
| MlDsaNtt.InttInPlace | solomon-core/src/crypto/poly.rs:457-517 | The shuffled inverse transform, scaled by 16382, gives Intt of the old coefficients for every seed. |
| MlDsaNtt.NttInOrder | solomon-core/src/crypto/poly.rs:405-453 | Algorithm 41 of FIPS 204, in order with its running table index, gives the same result. |
| MlDsaNtt.InttInOrder | solomon-core/src/crypto/poly.rs:457-517 | Algorithm 42 of FIPS 204 gives the same result as the shuffled inverse transform. |
| MlDsaRing.StageUndone | solomon-core/src/crypto/poly.rs:426-510 | A stage of one direction undoes the stage of the other up to the factor 2. |
| MlDsaRing.InttUndoesNtt | solomon-core/src/crypto/poly.rs:405-517 | intt(ntt(p)) = p for every canonical polynomial. |
| MlDsaRing.NttUndoesIntt | solomon-core/src/crypto/poly.rs:405-517 | ntt(intt(p)) = p for every canonical polynomial. |
| MlDsaProduct.NodeEval | solomon-core/src/crypto/poly.rs:405-453 | After k stages each block agrees with p at every root of the factor its tree node stands for. |
| MlDsaProduct.LeafIsPower | solomon-core/src/crypto/poly.rs:13-270 | The i-th evaluation point is 1753^(2 * rev(i) + 1) modulo q. |
| MlDsaProduct.NttEvaluates | solomon-core/src/crypto/poly.rs:405-453 | Coefficient i of the transform is the value of p at 1753^(2 * rev(i) + 1), for every p; the table does not occur in the statement. |
| MlDsaProduct.LeafRootNegacyclic | solomon-core/src/crypto/poly.rs:13-270 | Each of the 256 evaluation points is a root of X^256 + 1 modulo q. |
| MlDsaProduct.RingMulValue | solomon-core/src/crypto/poly.rs:377-401 | The negacyclic product, written out coefficient by coefficient, evaluates to the product at those roots. |
| MlDsaProduct.PointwiseValue | solomon-core/src/crypto/poly.rs:647-659 | Two Montgomery products with the factor 2^64 mod q give a * b modulo q. |
| MlDsaProduct.NttOfProduct | solomon-core/src/crypto/poly.rs:647-659 | The transform of a negacyclic product is the pointwise product of the transforms. |
| MlDsaProduct.MulNtt | solomon-core/src/crypto/poly.rs:377-401 | mul_ntt returns the product modulo X^256 + 1 and q, for all canonical inputs and seeds. |
| MlDsaVectors.NttAdd | solomon-core/src/crypto/poly.rs:355-363 | The transform of a sum is the sum of the transforms. |
| MlDsaVectors.MulVectorNtt | solomon-core/src/crypto/matrix.rs:159-170 | The two loops compute the row sums of pointwise products. |
| MlDsaVectors.MatVecIsRingProduct | solomon-core/src/crypto/matrix.rs:159-170 | Between ntt and intt, mul_vector_ntt is the matrix-vector product over Z_q[X]/(X^256 + 1). |
| MlDsaVectors.PolyInfNorm | solomon-core/src/crypto/poly.rs:665-683 | The norm is below a bound exactly when every centred coefficient is. |
| MlDsaVectors.InfNorm | solomon-core/src/crypto/matrix.rs:60-70 | The vector norm is below a bound exactly when every centred coefficient of every polynomial is. |
| MaskSelection.MaskSelects | solomon-core/src/crypto/poly.rs:665-683 | A mask of all zeros or all ones selects the first or the second word. |
| MaskSelection.NonZeroMask | solomon-core/src/crypto/scalar.rs:142-155 | (x | -x) >> 31 is all ones exactly when x is not zero. |
| MaskSelection.MaskedNegation | solomon-core/src/crypto/scalar.rs:142-155 | The masked negation on 32-bit words is q - x, and 0 for 0. |
| MlDsaRounding.Power2RoundCorrect | solomon-core/src/crypto/poly.rs:688-714 | r = r1 * 2^13 + r0 with r0 in (-2^12, 2^12] and r1 in ten bits. |
| MlDsaRounding.DecomposeCorrect | solomon-core/src/crypto/poly.rs:718-745 | r1 * alpha + r0 is r modulo q, r1 is one of 16 values and r0 within alpha/2, the wrap at q - 1 included. |
| MlDsaRounding.HighBitsClosed | solomon-core/src/crypto/poly.rs:782-796 | The high bits are the nearest multiple of alpha with 16 read as 0, and when the low part is positive. |
| MlDsaRounding.HintRecoversHighBits | solomon-core/src/crypto/poly.rs:763-834 | use_hint(make_hint(r, z), r) = high_bits(r + z) for every canonical r and |z| <= alpha/2. |
| MlDsaRounding.LoopHintExact | solomon-core/src/crypto/sign.rs:361-366 | The bit of the signing loop lets use_hint recover w1 if and only if u is not +-gamma2 with w1 not 0. |
| BitPacking.CoeffRoundTrip | solomon-core/src/crypto/packing.rs:36-212 | A coefficient survives packing if and only if it lies in the range of its format. |
| BitPacking.UnpackPackPoly | solomon-core/src/crypto/packing.rs:36-212 | unpack(pack(p)) = p for t1, secret, t0 and z polynomials in range, and the length written. |
| BitPacking.PackUnpackPoly | solomon-core/src/crypto/packing.rs:36-212 | pack(unpack(b)) = b for every byte string of the right length. |
| BitPacking.PackPolyLoop | solomon-core/src/crypto/packing.rs:36-195 | The group-by-group packing loops write exactly the packed polynomial. |
| MlDsaEncoding.PackHintLoop | solomon-core/src/crypto/packing.rs:217-234 | The loops with the cap of 55 write the positions of the ones, zeros, and the capped running counts. |
| MlDsaEncoding.UnpackHint | solomon-core/src/crypto/packing.rs:236-266 | Acceptance is exactly monotone counts up to 55, strictly increasing positions and zero padding; the result has ones there and nowhere else. |
| MlDsaEncoding.HintRoundTrip | solomon-core/src/crypto/packing.rs:217-266 | unpack_hint(pack_hint(h)) = h for six binary polynomials with at most 55 ones. |
| MlDsaEncoding.HintCanonical | solomon-core/src/crypto/packing.rs:217-266 | Every accepted hint string re-packs to itself, so the accepted strings are the image of pack_hint. |
| MlDsaEncoding.UnpackSig | solomon-core/src/crypto/packing.rs:381-395 | unpack_sig accepts exactly the strings whose hint part is accepted, and returns the three parts. |
| MlDsaEncoding.SigRoundTrip | solomon-core/src/crypto/packing.rs:368-395 | unpack_sig(pack_sig(sig)) = sig for z in range and at most 55 hint ones. |
| MlDsaEncoding.SigCanonical | solomon-core/src/crypto/packing.rs:368-395 | Every string unpack_sig accepts re-packs to itself. |
| MlDsaEncoding.PkRoundTrip | solomon-core/src/crypto/packing.rs:272-290 | unpack_pk(pack_pk(pk)) = pk when t1 has ten bits. |
| MlDsaEncoding.PkCanonical | solomon-core/src/crypto/packing.rs:272-290 | pack_pk(unpack_pk(b)) = b for every byte string. |
| MlDsaEncoding.SkRoundTrip | solomon-core/src/crypto/packing.rs:296-363 | unpack_sk(pack_sk(sk)) = sk when secrets and t0 lie in their ranges. |
| MlDsaEncoding.SkCanonical | solomon-core/src/crypto/packing.rs:296-363 | pack_sk(unpack_sk(b)) = b for every byte string. |
| MlDsaLayout.FieldsNumber | solomon-core/src/crypto/packing.rs:36-212 | Packed fields are one number: base 256 in the bytes, base 2^10, 2^4, 2^13 or 2^20 in the fields. |
| MlDsaLayout.PolyLayout | solomon-core/src/crypto/packing.rs:36-195 | The bytes of a polynomial spell its coefficients: t1 as it is, 4 - s, 4096 - t0 and 2^19 - z. |
| MlDsaLayout.PkLayout | solomon-core/src/crypto/packing.rs:272-280 | rho in the first 32 bytes, polynomial i of t1 in the 320 from 32 + 320 * i on. |
| MlDsaLayout.SkLayout | solomon-core/src/crypto/packing.rs:296-330 | rho, K, tr at 0, 32 and 64; s1, s2 and t0 polynomials at 128 + 128 * i, 768 + 128 * i and 1536 + 416 * i. |
| MlDsaLayout.SigLayout | solomon-core/src/crypto/packing.rs:368-380 | The challenge hash in 48 bytes, z polynomials at 48 + 640 * i, the hint from 3248 on. |
| MlDsaLayout.HintLayout | solomon-core/src/crypto/packing.rs:217-234 | Byte 55 + i counts the ones up to polynomial i; the bytes between two counts are the positions of its ones in increasing order; the rest is zero. |
| MlDsaSampling.SampleInBall | solomon-core/src/crypto/sign.rs:117-151 | The in-place loop computes the sampling recursion, or reports that the bytes did not suffice. |
| MlDsaSampling.SampleStable | solomon-core/src/crypto/sign.rs:117-151 | Once sampling ends, more bytes do not change its result. |
| MlDsaSampling.SampleIsChallenge | solomon-core/src/crypto/sign.rs:117-151 | On every stream on which it ends the result has exactly 49 non-zero coefficients, each 1 or -1. |
| MlDsaSampling.ChallengeProductBound | solomon-core/src/crypto/sign.rs:117-151 | A challenge times a polynomial bounded by b has norm at most 49 * b; 196 for secrets in [-4, 4]. |
| MlDsaSampling.ToCanonicalByMontgomery | solomon-core/src/crypto/matrix.rs:204-207 | montgomery_reduce(v * 4193792) is the canonical residue of v. |
| MlDsaSampling.SampleUniform | solomon-core/src/crypto/matrix.rs:195-209 | The rejection loop keeps the 23-bit candidates below q, in order. |
| MlDsaSampling.SampleBounded | solomon-core/src/crypto/matrix.rs:235-255 | The nibble loop returns 256 coefficients, all in [-4, 4], on every stream on which it ends. |
| MlDsaExpansion.SampleMeans | solomon-core/src/crypto/sign.rs:117-151 | Step by step: 49 steps from position 207 on, each at the first byte that is not above its number, moving one coefficient and setting 1, or -1 if that bit of the first eight bytes is set. |
| MlDsaExpansion.UniformMeans | solomon-core/src/crypto/matrix.rs:195-209 | The coefficients are the first 256 of the 23-bit triples of the stream that are below 8380417, in order. |
| MlDsaExpansion.BoundedMeans | solomon-core/src/crypto/matrix.rs:235-258 | The coefficients are 4 - n for the first 256 nibbles n below 9, the lower nibble of a byte first. |
| MlDsaExpansion.MatrixEntry | solomon-core/src/crypto/matrix.rs:183-216 | Entry (i, j) is sampled from SHAKE-128 of rho, j, i. |
| MlDsaExpansion.SecretEntry | solomon-core/src/crypto/matrix.rs:220-299 | Secret number k is sampled from SHAKE-256 of rho' and k in two bytes, the lower one first. |
| MlDsaExpansion.MaskEntry | solomon-core/src/crypto/sign.rs:66-99 | Mask i is read, as 2^19 - y in twenty bits, from 640 bytes of SHAKE-256 of rho' and kappa + i. |
| MlDsaSigning.VerifyInternal | solomon-core/src/crypto/sign.rs:158-221 | The method, transforms shuffled, computes the function Verify, which the next three rows determine. |
| MlDsaReference.VerifyMeans | solomon-core/src/crypto/sign.rs:158-221 | Verification over the ring: with mu = H(H(pk), m) and w1 the hinted high bits of A*z - c*t1*2^13, an unpacked signature verifies if and only if every |z| is below 524092 and the challenge hash is H(mu, w1), all hash inputs given byte by byte. |
| MlDsaReference.VerifyRefuses | solomon-core/src/crypto/sign.rs:161-168 | A malformed hint, or a coefficient of z of 524092 or more, is refused for every key and message. |
| MlDsaReference.SignatureBinds | solomon-core/src/crypto/sign.rs:170-221 | A signature that verifies for two different pairs of key and message yields a collision of the hash on 48 or 64 bytes. |
| MlDsaSigning.MaxDiff | solomon-core/src/crypto/sign.rs:320-337 | The running maximum is below a bound exactly when every |w0 - c*s2| is. |
| MlDsaSigning.ComputeHint | solomon-core/src/crypto/sign.rs:351-372 | The loops build the hint vector and count its ones. |
| MlDsaSigning.TryOnce | solomon-core/src/crypto/sign.rs:272-379 | One pass of the loop body, transforms shuffled, is the attempt: stuck, rejected or a packed candidate. |
| MlDsaSigning.SignInternal | solomon-core/src/crypto/sign.rs:232-406 | The rejection loop with its 16-bit counter, verify-before-release and stored-key check follows the recursion Sign; the next three rows say what it hashes and which attempt it returns. |
| MlDsaReference.SessionMeans | solomon-core/src/crypto/sign.rs:246-259 | mu is the hash of tr, m and the mask seed the hash of K, rnd, mu, byte by byte. |
| MlDsaReference.AttemptMeans | solomon-core/src/crypto/sign.rs:272-379 | One attempt over the ring: a signature with challenge H(mu, w1), z = y + c*s1 and the hint is packed if and only if z is below 524092, w0 - c*s2 below 261692, c*t0 below 261888 and the hint has at most 55 ones. |
| MlDsaReference.FirstAccepted | solomon-core/src/crypto/sign.rs:270-406 | Under a consistent key the signature is that of the first attempt not rejected, with counter 5 * n modulo 2^16, if it is off the boundary. |
| MlDsaCompleteness.VerificationEquation | solomon-core/src/crypto/sign.rs:182-209 | A*z - c*t1*2^13, as computed, equals w - c*s2 + c*t0 for honest z, t1 and t0. |
| MlDsaCompleteness.RecoveredVector | solomon-core/src/crypto/sign.rs:351-372 | The verifier recovers w1 exactly when no coefficient is on the hint boundary. |
| MlDsaCompleteness.CandidateVerdict | solomon-core/src/crypto/sign.rs:272-392 | Under a consistent key the verdict on a candidate compares the hashes of two byte strings that are equal if and only if the boundary is avoided. |
| MlDsaCompleteness.CandidateVerifies | solomon-core/src/crypto/sign.rs:272-392 | A candidate that passed all four checks off the boundary verifies under the re-derived key. |
| MlDsaCompleteness.FirstCandidateReleased | solomon-core/src/crypto/sign.rs:378-392 | Under a consistent key the first candidate off the boundary is the one returned. |
| MlDsaCompleteness.ReleasedVerifies | solomon-core/src/crypto/sign.rs:380-405 | Over every run, a returned signature verifies under the re-derived key and under the stored one if given. |
| MlDsaCompleteness.Ct0NeverRejected | solomon-core/src/crypto/sign.rs:339-349 | The check on c*t0 cannot fail for any unpacked t0: 49 * 4096 is below gamma2. |
| MlDsaReference.KeygenMeans | solomon-core/src/crypto/nist_api.rs:21-71 | rho, rho' and K are slices of the hash of the seed, 6, 5; the secrets are numbered 0 to 4 and 5 to 10; tr is the hash of pk; t1 * 2^13 + t0 is A*s1 + s2 over the ring. |
| MlDsaCompleteness.KeygenHonest | solomon-core/src/crypto/nist_api.rs:21-71 | The packed secret key unpacks to parts that re-derive exactly the packed public key, its hash and t0; its secrets are short. |
| MlDsaCompleteness.SignedVerifies | solomon-core/src/crypto/nist_api.rs:21-133 | Every signature returned under a generated secret key verifies under the generated public key. |
| MlDsaCompleteness.StoredKeyNeverCorrupted | solomon-core/src/crypto/sign.rs:394-403 | With the generated public key stored, the corruption stop is unreachable. |
| MlDsaCompleteness.FormatInjective | solomon-core/src/crypto/nist_api.rs:76-84 | The message representative determines message and context. |
| MlDsaReference.VerifyCtxMeans | solomon-core/src/crypto/nist_api.rs:76-132 | verify_ctx verifies 0, the context length, the context, the message; a context over 255 bytes is refused. |
| MlDsaReference.ContextBinds | solomon-core/src/crypto/nist_api.rs:126-132 | A signature binds key, message and context, short of a hash collision. |
| MlDsaCompleteness.HedgedSignatureVerifies | solomon-core/src/crypto/nist_api.rs:108-132 | sign_hedged then verify_ctx with the same context accepts under a generated pair. |
| MlDsaStandard.SecondCheckAgrees | solomon-core/src/crypto/sign.rs:320-337 | For c*s2 within beta, testing w0 - c*s2 is testing LowBits(w - c*s2) as FIPS 204 does, and then the high bits are those of w. |
| MlDsaStandard.LoopHintIsStandard | solomon-core/src/crypto/sign.rs:355-366 | After the checks the inline bit is MakeHint of Algorithm 39 if and only if the boundary is avoided. |
| MlDsaStandard.HintsAgree | solomon-core/src/crypto/sign.rs:351-372 | The hint vectors of code and standard agree if and only if no coefficient is on the boundary. |
| MlDsaStandard.IterationIsStandard | solomon-core/src/crypto/sign.rs:309-378 | Off the boundary the four checks and the packed signature are those of Algorithm 7. |
| MlDsaStandard.LoopFollowsStandard | solomon-core/src/crypto/sign.rs:272-378 | For every key with short secrets, every pass of the loop off the boundary takes the decision of Algorithm 7. |
| MlDsaStandard.BoundaryWitness | solomon-core/src/crypto/sign.rs:361-366 | A coefficient that passes the checks with u = gamma2 and w1 = 1: the inline bit is 1, the standard bit is 0, and the inline bit recovers the wrong value. |
| KeccakLanes.XorBlockBytes | solomon-core/src/crypto/shake.rs:110-116 | Xoring assembled words into lanes is xoring the block, followed by zeros, into the bytes of the state. |
| KeccakSponge.ShakePadding | solomon-core/src/crypto/shake.rs:127-140 | With suffix 0x1F the last block is, bit by bit, the tail, 1111 and pad10*1. |
| KeccakSponge.KeccakSponge.Absorb | solomon-core/src/crypto/shake.rs:99-122 | Keeps the invariant (buffer zero beyond pos, state of the whole blocks) and appends the data to the message. |
| KeccakSponge.KeccakSponge.Squeeze | solomon-core/src/crypto/shake.rs:125-161 | Returns the next n bytes of the output of the absorbed message, padding on the first call. |
| KeccakSponge.OutputByBlocks | solomon-core/src/crypto/shake.rs:145-160 | The output is the rate part of the state, then of its permutation, and so on, as in SPONGE. |
| KeccakSponge.AnySplit | solomon-core/src/crypto/shake.rs:99-161 | Any split of input and output gives the bytes of one SPONGE call. |
| KeccakSponge.OneShot | solomon-core/src/crypto/shake.rs:165-176 | shake128 and shake256 are SPONGE with suffix 0x1F. |
| KeccakReference.LowestFirst | solomon-core/src/crypto/shake.rs:110-116 | Bytes go into lanes lowest first: each counts 256 times the one before. |
| KeccakReference.StateOfBytes | solomon-core/src/crypto/shake.rs:145-160 | The 200 bytes of a state determine its lanes. |
| KeccakReference.AbsorbedMeans | solomon-core/src/crypto/shake.rs:99-140 | Absorbing is Algorithm 8 of FIPS 202 on bytes: message, 0x1F, zeros and 0x80 in blocks, each xored into the first bytes of the state and permuted, from zero. |
| Goldilocks.ReduceU128 | solomon-zk/src/field.rs:46-61 | The limb folding with a signed remainder returns the residue of every 128-bit value. |
| Goldilocks.FieldOps | solomon-zk/src/field.rs:74-96 | The carry, borrow and fold forms of add, sub and mul are the field operations. |
| Goldilocks.Exp | solomon-zk/src/field.rs:98-109 | Square-and-multiply returns the power. |
| Goldilocks.Invert | solomon-zk/src/field.rs:111-115 | Inversion returns the power p - 2. |
| Goldilocks.InverseOfSevenPower | solomon-zk/src/field.rs:111-115 | That power is an inverse for every power of 7, from 7^((p-1)/2) = -1 by repeated squaring. |
| Goldilocks.InverseOfTwoPower | solomon-zk/src/field.rs:111-115 | That power is an inverse for every power of 2. |
| Goldilocks.RootIsRoot | solomon-zk/src/intt.rs:9-14 | get_root_of_unity(n) is a primitive n-th root for every power of two up to 2^32. |
| Goldilocks.RootIsPower | solomon-zk/src/intt.rs:9-14 | Which root: 1753635133440165772 for 2^32, and for n its power 2^32 / n. |
| Fourier.DftInverse | solomon-zk/src/ntt.rs:62-95 | The transform with the inverse root and 1/n undoes the transform. |
| BitReversal.BitReverse | solomon-zk/src/ntt.rs:13-27 | In-place swaps along the carry chain permute the slice by bit reversal. |
| BitReversal.RevInvolution | solomon-zk/src/ntt.rs:13-27 | Bit reversal is its own inverse. |
| RadixTwo.PassesComputeDft | solomon-zk/src/ntt.rs:40-59 | The butterfly passes over bit-reversed input compute the transform, for every power-of-two length. |
| RadixTwo.ForwardNttRadix2 | solomon-zk/src/ntt.rs:30-60 | In place, X[k] = sum of x[j] * omega^(jk). |
| RadixTwo.VectorMulScalar | solomon-zk/src/simd/mod.rs:134-147 | Chunks of eight lanes and the tail multiply every element once. |
| RadixTwo.InverseNttRadix2 | solomon-zk/src/ntt.rs:62-95 | In place, the inverse transform with its chunked scalar multiplication. |
| RadixTwo.InverseDftRoundTrips | solomon-zk/src/ntt.rs:30-95 | Forward and inverse undo each other in both orders. |
| MatrixLayout.MatrixTranspose | solomon-zk/src/ntt.rs:98-122 | The tiled loops transpose every entry, for every shape. |
| FourStep.FourStepResult | solomon-zk/src/ntt.rs:125-218 | Column transforms, twiddles and row transforms combine to the whole transform. |
| FourStep.FourStepNtt | solomon-zk/src/ntt.rs:125-169 | Returns exactly what the radix-2 forward transform returns, below and above the cutoff. |
| FourStep.FourStepIntt | solomon-zk/src/ntt.rs:172-218 | Returns exactly what the radix-2 inverse transform returns. |
| LowDegreeExtension.ComputeIntt | solomon-zk/src/intt.rs:17-59 | In place, decimation in frequency with twiddles running on across blocks, then 1/n. |
| LowDegreeExtension.ComputeForwardNtt | solomon-zk/src/lde.rs:27-59 | In place, the forward passes with running twiddles. |
| LowDegreeExtension.ForwardUndoesIntt | solomon-zk/src/lde.rs:10-59 | compute_forward_ntt(compute_intt(x)) = x for every power-of-two length. |
| FrequencyDecimation.InttMeans | solomon-zk/src/intt.rs:17-59 | What compute_intt leaves at position i is the inverse transform at the bit-reversed position, negated if i has an odd number of neighbouring ones in binary, for all inputs and lengths. |
| FrequencyDecimation.ForwardMeans | solomon-zk/src/lde.rs:27-59 | compute_forward_ntt is the transform of the coefficients put back in order with those signs. |
| DomainExtension.GenerateLde | solomon-zk/src/lde.rs:10-24 | generate_lde: interpolate, pad, evaluate; nothing for an empty result. |
| DomainExtension.LdeRepeats | solomon-zk/src/lde.rs:10-24 | For all evaluations and every accepted blow-up, generate_lde returns its input, repeated blow-up times. |
| DomainExtension.LdeExtendsExactly | solomon-zk/src/lde.rs:9-24 | It returns the values of the interpolated polynomial on the larger domain, as documented, if and only if the blow-up is 1 or the evaluations are all equal. |
| FriFolding.FoldLayer | solomon-zk/src/fri.rs:78-99 | One round of the loop computes the fold of the layer. |
| FriFolding.FoldFaithful | solomon-zk/src/fri.rs:76-99 | Evaluations of c on the n-th roots fold to evaluations of c[2j] + beta*c[2j+1] on the (n/2)-th roots. |
| FriFolding.RoundsFaithful | solomon-zk/src/fri.rs:76-109 | The same after any number of rounds. |
| FriFolding.FinalConstant | solomon-zk/src/fri.rs:76-112 | After log2 n rounds the layer is the one coefficient left. |
| Merkle.BuildMerkleTree | solomon-zk/src/merkle.rs:32-67 | The padding and hashing loops build the tree of the padded leaves; no leaves give the zero root. |
| Merkle.GenerateMerkleProof | solomon-zk/src/merkle.rs:70-83 | The loop collects the sibling path. |
| StarkTranscript.ParentMeans | solomon-zk/src/merkle.rs:50-61 | An inner node is the hash of 64 bytes, the left digest first. |
| StarkTranscript.RootOfHalves | solomon-zk/src/merkle.rs:45-67 | The root of two halves is the node of their roots, which with the single leaf determines every root from the top. |
| StarkTranscript.LeafMeans | solomon-zk/src/merkle.rs:18-26 | A leaf is the hash of eight bytes per element: the row as a number with 64-bit digits. |
| Merkle.VerifyMerkleProof | solomon-zk/src/merkle.rs:86-104 | The loop accepts exactly when the leaf climbs to the root. |
| Merkle.PathVerifies | solomon-zk/src/merkle.rs:32-104 | Every generated path has full height and verifies. |
| Merkle.PathBinds | solomon-zk/src/merkle.rs:86-104 | A full-height path verifies only for the leaf at its index and with the generated siblings, or it exhibits a hash collision. |
| Merkle.ClimbModulo | solomon-zk/src/verifier.rs:95-97 | Verification at index mod 2^depth is verification at the index. |
| Transcript.Challenger.SampleExt | solomon-zk/src/challenger.rs:30-42 | Returns the challenge of the absorbed bytes and restarts from the digest. |
| Transcript.Challenger.SampleAlphas | solomon-zk/src/challenger.rs:45-51 | Returns the successive challenges. |
| StarkTranscript.ChallengeMeans | solomon-zk/src/challenger.rs:30-42 | A challenge is the first eight bytes of the digest, little-endian, modulo p. |
| StarkTranscript.OpeningMeans | solomon-zk/src/prover.rs:22-34 | Both sides start from the key, the message and the trace root, byte by byte; the alphas come from the first four digests, zeta from the fifth, and the fifth is the state they go on from. |
| StarkTranscript.FirstStateBinds | solomon-zk/src/verifier.rs:49-52 | The first state determines the trace root and, for keys of one length, key and message; in general exactly their concatenation. |
| StarkTranscript.SharedTranscript | solomon-zk/src/verifier.rs:49-52 | Two different pairs of key and message of other lengths that share a transcript. |
| StarkTranscript.TranscriptBinds | solomon-zk/src/verifier.rs:49-55 | Runs that differ in key and message or trace root reach one state only through a hash collision. |
| StarkTranscript.BetasMean | solomon-zk/src/verifier.rs:70-78 | Beta k is drawn from the digest of the state before it and layer root k. |
| StarkTranscript.CommitStateMeans | solomon-zk/src/fri.rs:67-109 | The prover ends the commit phase in the state that absorbed every layer root in order. |
| StarkTranscript.QueriesMean | solomon-zk/src/fri.rs:111-153 | The forty positions are drawn from the successive digests of that state and the final element in eight bytes, modulo the domain, and each opening carries its evaluation. |
| StarkTranscript.RowsMean | solomon-zk/src/fri.rs:122-134 | The row opened is the trace row at the position modulo the least power of two that holds the trace, or zeros beyond the last row. |
| StarkTranscript.LayerPathsMean | solomon-zk/src/fri.rs:139-143 | The path for layer l is generated at the position shifted by l, modulo the number of levels of that layer. |
| Stark.CommitPhase | solomon-zk/src/fri.rs:63-112 | The folding loop goes through the layers, commits to each, and leaves the transcript where the specification says. |
| Stark.QueryPhase | solomon-zk/src/fri.rs:114-153 | Forty openings at the drawn positions. |
| Stark.GenerateProof | solomon-zk/src/prover.rs:20-66 | The proof has the commitments, layers and openings of an honest run, at the forty positions drawn from the transcript, whose bytes the StarkTranscript rows give. |
| Stark.ReplayFollowsProver | solomon-zk/src/verifier.rs:70-78 | The replay yields one challenge per round, and folding with them ends in the last layer. |
| Stark.LayerFolds | solomon-zk/src/verifier.rs:70-78 | Each replayed challenge folds its layer to the next: the verifier's betas are the prover's. |
| Stark.FinalElement | solomon-zk/src/fri.rs:76-112 | With honest evaluations the final element is the constant the coefficients fold to under the verifier's betas. |
| Stark.CheckLayers | solomon-zk/src/verifier.rs:115-159 | The layer loop accepts exactly on a present value, non-empty inner paths and at most 32 layers; more than 32 stop it, anything else is refused. |
| Stark.VerifyStarkProof | solomon-zk/src/verifier.rs:35-162 | Accepts exactly the proofs with non-degenerate challenges whose every query passes, and replays the betas; otherwise the error is that of the first check that fails. |
| Stark.QueryErrors | solomon-zk/src/verifier.rs:85-162 | For one query, which check each error stands for, if and only if. |
| StarkCompleteness.HonestAccepted | solomon-zk/src/verifier.rs:35-162 | An honest proof is accepted when challenges are non-degenerate, the domain is below 2^32 and queries fall on trace rows. |
| StarkCompleteness.LargestDomainRefused | solomon-zk/src/verifier.rs:122-136 | With 2^32 evaluations every honest proof is refused: the verifier asks for a root of order 2^33. |
| StarkCompleteness.HonestVerdict | solomon-zk/src/verifier.rs:35-162 | Unless the zero row hashes to zero or a collision is at hand, an honest proof is accepted if and only if challenges are non-degenerate, the domain is below 2^32 and queries fall on trace rows. |
| StarkCompleteness.LayerPathExact | solomon-zk/src/fri.rs:139-143 | The path stored for a layer verifies the queried element if and only if it happens to equal the path of its position, or a collision is at hand. |
| StarkCompleteness.LayerPathByPosition | solomon-zk/src/fri.rs:139-143 | For pairwise different evaluations the stored path verifies if and only if the stored position is the queried one, or a collision is at hand. |
| StarkCompleteness.StoredPathFails | solomon-zk/src/fri.rs:139-143 | A tree and query for which the right path verifies and the stored one does not. |
| StarkCompleteness.WholeTraceAccepted | solomon-zk/src/trace.rs:193-200 | With a power of two of trace rows, as the builder produces, every honest proof is accepted. |
| StarkCompleteness.PaddingRowRefused | solomon-zk/src/fri.rs:122-134 | A query on a padding row is accepted only if the zero row hashes to zero or a collision exists. |
| StarkCompleteness.PaddingRowAccepted | solomon-zk/src/fri.rs:122-134 | Conversely, such a hash makes it acceptable. |
| Iso8583.HeaderRoundTrip | solomon-core/src/bcd.rs:138-219 | Decimal and BCD length headers of two, three and four digits read back. |
| Iso8583.FieldRoundTrip | solomon-core/src/iso8583.rs:744-778 | Wherever it stands, an encoded field decodes to its payload and offset. |
| Iso8583.BitmapTests | solomon-core/src/iso8583.rs:718-731 | The bitmap flags exactly the present fields, and bit 1 exactly when a field above 64 is. |
| Iso8583Layout.BitmapNumber | solomon-core/src/iso8583.rs:718-742 | As a big-endian number the first bitmap is the sum of 2^(64 - n), the whole one of 2^(128 - n), over the flagged fields; it is written in 8 or 16 bytes. |
| Iso8583Layout.SchemaComplete | solomon-core/src/iso8583.rs:93-153 | Every element from 1 to 128 has one entry, of a fixed width or of a header width and greatest length. |
| Iso8583Layout.FixedWritten | solomon-core/src/iso8583.rs:744-778 | Each fixed field, by number, is written in its width, cut or with spaces behind, in both forms. |
| Iso8583Layout.FixedRead | solomon-core/src/iso8583.rs:311-322 | Each fixed field, by number, is read if and only if its width is left, and is those bytes. |
| Iso8583Layout.VariableWritten | solomon-core/src/iso8583.rs:744-778 | Each variable field, by number, is written as a header of two, three or four digits that says its length, cut to the greatest, and the payload; text or two digits to a byte. |
| Iso8583Layout.VariableRead | solomon-core/src/iso8583.rs:321-420 | Each variable field, by number: after a header that says a length the payload is read if and only if the length is at most the greatest and that much is left. |
| Iso8583Layout.UpperHalfIgnored | solomon-core/src/bcd.rs:177-185 | A three-digit BCD header is read without the upper half of its first byte. |
| Iso8583Layout.BadPairRefused | solomon-core/src/bcd.rs:138-219 | A BCD header with a half above 9 is refused. |
| Iso8583Layout.FieldsAscend | solomon-core/src/iso8583.rs:744-778 | The encoded fields follow each other in ascending order. |
| Iso8583Layout.TextLayout | solomon-core/src/iso8583.rs:712-782 | Text form: the type, the bitmap in upper-case hexadecimal, the fields. |
| Iso8583Layout.BcdLayout | solomon-core/src/iso8583.rs:622-688 | BCD form: the four digits of the type in two bytes, the bitmap, the fields. |
| Iso8583Layout.ParseRefuses | solomon-core/src/iso8583.rs:213-230 | Fewer than 12 bytes, or 10 in BCD form, are too short; a type that is not four digits is refused. |
| Iso8583Text.PackedNumber | solomon-core/src/bcd.rs:38-61 | Digits between blanks are packed two to a byte, an odd first one alone, as the number they say. |
| Iso8583Text.BlankIsWhiteSpace | solomon-core/src/bcd.rs:38-42 | The characters trimmed are exactly those with the property White_Space. |
| Iso8583Text.LoneDropped | solomon-core/src/bcd.rs:38-61 | A character of two or four bytes behind the digits is dropped unseen. |
| Iso8583.ParseMessage | solomon-core/src/iso8583.rs:213-433 | parse, with its hex guess, signed length prefixes and error cases; the Iso8583Layout rows give the fields it reads. |
| Iso8583.ParseBcdMessage | solomon-core/src/iso8583.rs:449-600 | parse_as2805_bcd, including the stop on a padding nibble in the type; the fields as in the Iso8583Layout rows. |
| Iso8583.SerializeMessage | solomon-core/src/iso8583.rs:712-782 | serialize_internal in hex and binary form, laid out as the Iso8583Layout rows say. |
| Iso8583.SerializeBcdMessage | solomon-core/src/iso8583.rs:622-688 | serialize_as2805_bcd: blanks around the type trimmed, digits packed in pairs, an odd first digit alone, one left-over character of two or four bytes at the end dropped, None for any other character. |
| Iso8583.SerializeHexParses | solomon-core/src/iso8583.rs:213-433 | parse(serialize(m)) = m for every well-formed message, hex form. |
| Iso8583.SerializeBcdParses | solomon-core/src/iso8583.rs:449-688 | parse undoes serialize in BCD form for every well-formed message. |
| Iso8583Exact.SerializeHexExact | solomon-core/src/iso8583.rs:213-433 | parse(serialize(m)) = m if and only if m is well-formed. |
| Iso8583Exact.SerializeBcdExact | solomon-core/src/iso8583.rs:449-688 | The BCD form gives the message back if and only if it is well-formed; a type with blanks packs but returns as digits. |
| Iso8583Exact.SerializeBinaryExact | solomon-core/src/iso8583.rs:232-239 | In binary form parse undoes serialize if and only if the sixteen bytes after the type do not all look hexadecimal. |
| Iso8583Exact.BinaryWitness | solomon-core/src/iso8583.rs:232-239 | A well-formed message that looks hexadecimal and does not come back. |
| Iso8583Exact.SerializeNormalizes | solomon-core/src/iso8583.rs:744-778 | For payloads of any length, serializing and parsing yields the message with every payload cut or padded to its field, in both forms. |
| Iso8583Exact.PrefixExact | solomon-core/src/iso8583.rs:331-339 | A length prefix is accepted if and only if it is digits with at most one plus sign in front. |
| Iso8583Exact.ParseBcdPanics | solomon-core/src/iso8583.rs:449-460 | The BCD parser stops the program exactly when the type holds a padding nibble behind valid digits. |
| Iso8583Exact.ParseNeverPanics | solomon-core/src/iso8583.rs:213-433 | The text parser never does. |
| Iso8583.ParseStable | solomon-core/src/iso8583.rs:213-433 | Whatever parse accepts is well-formed, and parse(serialize(parse b)) = parse b. |
| Iso8583.ParseBcdStable | solomon-core/src/iso8583.rs:449-600 | The same for the BCD parser. |
| Iso8583.FrameLength | solomon-core/src/iso8583.rs:696-710 | The two-byte header is the length of the payload behind it, up to 65535. |
| ProxyExchange.SignAndInject | solomon-core/src/proxy.rs:778-849 | What is signed and what is sent, for every field number; outside 1 to 128 nothing is injected. |
| ProxyExchange.Receive | solomon-core/src/proxy.rs:1042-1129 | process_receiving_iso8583_message with all its refusals. |
| ProxyExchange.StaleExactly | solomon-core/src/proxy.rs:1042-1056 | A packet is stale if and only if it parses to a message of type 01xx or 02xx whose field 7 is not fresh. |
| ProxyExchange.DeliveredExactly | solomon-core/src/proxy.rs:1042-1129 | For every packet: delivered if and only if it parses, is not late, has field 112 or else 123, of that field the identity, the hash of the first 96 bytes and the signature, where there are 3437 bytes, check out, and the rest of the message is what is delivered. |
| ProxyExchange.RefusedExactly | solomon-core/src/proxy.rs:1057-1121 | For every packet that parses and is not late, which check each refusal stands for, if and only if. |
| ProxyExchange.StripUndoesInject | solomon-core/src/proxy.rs:1042-1072 | The receiver strips the injected payload and is left with the signed bytes if and only if the field was free and field 112 absent. |
| ProxyExchange.PayloadSplits | solomon-core/src/proxy.rs:1074-1083 | The payload splits into the four proof parts and the signature. |
| ProxyExchange.OtherFieldUnseen | solomon-core/src/proxy.rs:1058-1072 | Injected into another field the payload is not looked at: the receiver answers that its field is missing, or strips a field of the message itself. |
| ProxyExchange.ExchangeDelivers | solomon-core/src/proxy.rs:1042-1129 | For every field number, the receiver delivers the signed bytes if and only if the injection is reversible and identity, proof elements, signature and time check out. |
| AuditLog.VerifyChain | solomon-core/src/audit/chain.rs:34-103 | Accepts exactly the chained sequences, reports the first broken index and which link is broken there. |
| AuditLog.StepKeeps | solomon-core/src/audit/logger.rs:366-459 | Every log and flush step keeps conservation, the queue bound, order and the chain; a record is dropped exactly when the file is closed and 5000 are queued, and every queued one counts as recovered when written. |
| AuditLog.RunKeeps | solomon-core/src/audit/logger.rs:366-459 | The same over every run. |
| AuditLog.RunGuarantees | solomon-core/src/audit/logger.rs:366-459 | From a recovered hash: the records emitted carry the logged events in order; emitted = disk + queued + dropped, queue <= 5000, and with none dropped disk followed by queue is the emitted order and verifies. |
| AuditLog.OpenStays | solomon-core/src/audit/logger.rs:366-443 | Over every run the file is open if and only if it was or an attempt to open it succeeded; from then on nothing is dropped. |
| AuditLog.RestartContinues | solomon-core/src/audit/logger.rs:173-201 | After a clean stop, recovery continues the chain if and only if something is on disk, the chain began at the genesis hash, or nothing follows. |
| AuditLog.DropBreaksChain | solomon-core/src/audit/logger.rs:407-438 | After a drop the next written record breaks the chain on disk unless two hashes coincide. |
| AuditLog.KeptChainedExactly | solomon-core/src/audit/logger.rs:366-459 | Over every run without coinciding hashes, disk and queue verify if and only if nothing was dropped or the outage still lasts, and if and only if they are a prefix of the emitted records. |
| AuditLog.OutageDrops | solomon-core/src/audit/logger.rs:430-438 | An outage of 5001 records drops exactly the last one. |
| AuditLog.OutageBreaksChain | solomon-core/src/audit/logger.rs:407-438 | The record written after such an outage breaks the chain on disk. |
| AuditLog.BackgroundWorker.LogEvent | solomon-core/src/audit/logger.rs:366-443 | The command in place is the log step of the machine. |
| AuditLog.BackgroundWorker.FlushAll | solomon-core/src/audit/logger.rs:444-458 | The command in place is the flush step. |
| TrimmedMean.AggregateWeightsRobust | solomon-cloud/src/ai_aggregator.rs:12-51 | Each coordinate is the trimmed mean of its column, which the next three rows determine; no updates return the current weights. |
| TrimmedMean.MeanConcat | solomon-cloud/src/ai_aggregator.rs:41-48 | Means combine by weight; with MeanSingle, the mean of one value, this determines the mean. |
| TrimmedMean.TrimmedMeanIs | solomon-cloud/src/ai_aggregator.rs:28-48 | The trimmed mean is the mean of what is left without the t smallest and t largest values, however ties are broken, t being a fifth rounded up or the most that leaves a value. |
| TrimmedMean.TrimmedSum | solomon-cloud/src/ai_aggregator.rs:28-48 | Times n - 2t it is the sum of the column less the values removed. |
| TrimmedMean.KeptInside | solomon-cloud/src/ai_aggregator.rs:26-39 | Every value kept after sorting and trimming lies between the honest bounds. |
| TrimmedMean.Robust | solomon-cloud/src/ai_aggregator.rs:26-48 | With at most trim_count faulty clients the mean lies within the honest values. |
| TrimmedMean.AggregateRobust | solomon-cloud/src/ai_aggregator.rs:25-48 | The same for every coordinate, dimension and number of clients. |
| TrimmedMean.OneMoreIsTooMany | solomon-cloud/src/ai_aggregator.rs:32-39 | For every n > 1 there are values and honest clients, trim_count + 1 of the others faulty, with the mean above every honest value. |

## Left out

- Termination of rejection sampling and of the signing loop: it depends on the hash stream.
- The Keccak-f permutation itself: the sponge is proved over any permutation.
- Constant-time behaviour, zeroization, memory locking and speculation barriers: not functional properties.
- MlDsaSigning.SignInternal: the 16-bit counter wraps as in a release build; a debug build stops there.
- mul_schoolbook: it overflows for large coefficients; products are specified by the negacyclic product instead.
- Iso8583.SerializeBcdMessage: does not tell a type that is not UTF-8 from one with a character that is no digit; both give None.
- The texts and numbers carried by ISO 8583 errors; only their kinds are modelled.
- Message fields outside 1 to 128, which only direct access to the map could create, and field 7 date arithmetic.
- Soundness of the proof system: the verifier defers the folding check, so only completeness is claimed.
- Stark.VerifyStarkProof: shifts are unbounded, so 1 << depth for a path of 64 or more digests, where the source overflows, is not modelled.
- Stark.CheckLayers: more than 32 layer paths are a stop; the overflow of 1 << len for 64 or more of them is not modelled apart from that.
- The quotient evaluator, constraint system and trace filling: the evaluator is a parameter.
- DomainExtension.GenerateLde: lengths that are not powers of two, at which get_root_of_unity stops the program, are excluded.
- JSON encoding of proofs and log records: taken as lossless.
- The FRI prover without a trace context: the proof generator always sets one.
- vector_add_slice, vector_sub_slice and vector_mul_slice: the same chunking as vector_mul_scalar.
- AVX-512 and NEON code paths: not called by the slice operations.
- Audit segments: day rotation, seals, retention, and failing writes to an open handle.
- TrimmedMean.AggregateWeightsRobust: rounding of 32-bit floats and not-a-number values are not modelled.
- Training, feature extraction, key stores, network, dashboards, reports and configuration: input and output or single decisions.
