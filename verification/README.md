# Sigma-protocol suite over a prime-order group, modelled in Dafny

This project models the arithmetic core of `lab_zkp.py`, a small library of
non-interactive zero-knowledge proofs (Sigma protocols made non-interactive
with the Fiat-Shamir transform) over the secp224r1 curve group. It models:

- the challenge function `to_challenge`;
- the parameter and witness generators `setup`, `key_gen`, `commit`,
  `gen2_keys`, `encrypt`, `bin_encrypt` and `relation`;
- the Schnorr proof of knowledge of a key, `prove_key` / `verify_key`;
- the proof of knowledge of a commitment opening, `prove_commitment` /
  `verify_commitments`;
- the prover side of the discrete-log-equality proof, `prove_dl_equality`;
- the OR-style `prove_something` and the verification its test performs.

It proves that every implemented prove/verify pair is complete: a proof made
from a valid witness is accepted, for every hash function and every choice of
nonces. In each case the point the verifier recomputes equals the prover's
first-move point.

## Abstractions

- **Group.** The curve group is replaced by the integers modulo its order
  `o`. A point is its discrete log relative to the curve's base point, an
  integer in `[0, o)`. Point addition is `(P + Q) % o` and scalar
  multiplication is `(s * P) % o` (module `Group`). With a positive divisor,
  Dafny's `%` is never negative, like Python's.
- **Hash.** SHA-256 over the serialised points is a parameter
  `hash: seq<Point> -> Digest`, where a digest is exactly 32 bytes. It is
  otherwise uninterpreted. `Integer.from_bytes` is a big-endian decode
  (`Challenge.FromBytes`).
- **Randomness.** Each `Integer.random_range(1, o)` draw is an explicit
  parameter `w` with `1 <= w < o` (`Zkp.IsNonce`).
- **Failures.** The code modelled here raises in four places. `commit` asserts four
  secrets. `prove_commitment` unpacks four secrets. `verify_commitments`
  unpacks five responses. `bin_encrypt` asserts a message of 0 or 1. The
  model returns `Err(...)` of a `Result` in each of these cases.
- **Integers.** Python integers are unbounded, so no wrap-around is modelled.

## Where the code differs from the textbook protocols

The model follows the code in each case.

- The Schnorr proof over an elliptic curve in section 4 of RFC 8235 reduces
  the response modulo the order. The code at `lab_zkp.py:74` computes
  `o + w - ((c*priv) % o)` (Python's precedence), which is never reduced: it
  lies in `(w, w + o]` (`Zkp.Response`). It is still congruent to
  `w - c*priv`, which is all the verifier's scalar multiplication uses.
- A textbook proof of knowledge of a Pedersen-commitment opening draws a
  nonce for `g` as well as for each `h_i` and reduces every response. The
  code draws four nonces and leaves `g` out of the first move
  (`lab_zkp.py:112-113`). Its last response is the unreduced, negative
  `-r*c` (`lab_zkp.py:118`). In the model, completeness still holds
  (`Completeness.CommitmentProofComplete`), because a negative scalar acts
  modulo `o` there; whether the curve library multiplies a point by a
  negative scalar in the same way is not modelled (see "Left out"). The
  opening can be read off the proof
  (`Completeness.CommitmentProofRevealsOpening`).
- The challenge is not reduced modulo the order. Every value below 2^256 is
  the decoding of some 32-byte digest (`Challenge.ChallengeIsDigestValue`),
  including values at or above the secp224r1 order
  (`Challenge.ChallengeMayExceedOrder`); which of them SHA-256 actually
  produces is not modelled.

## Model

| member | source | states |
|---|---|---|
| Group.Add | lab_zkp.py:84 | point addition yields a group element, in `[0, o)` |
| Group.Mul | lab_zkp.py:72 | scalar multiplication by any integer, including a negative or unreduced one, yields a group element, in `[0, o)` |
| Group.MulMul | lab_zkp.py:84 | multiplying a multiple of a point again composes the scalars: `s*(t*P) == (s*t)*P` |
| Group.AddMuls | lab_zkp.py:84 | two multiples of one point add up to the multiple by the summed scalar |
| Group.MulShift | lab_zkp.py:129 | scalars act modulo the order: `(s + k*o)*P == s*P`, so unreduced and negative responses have a reduced equivalent |
| Group.Setup | lab_zkp.py:32-39 | five scalars from `[1, o)` times the base point give valid parameters: order is the secp224r1 order, `g` and `h0..h3` are non-identity points with the drawn discrete logs |
| Challenge.FromBytes | lab_zkp.py:58 | `Integer.from_bytes`: a big-endian decoded byte string of length n is below 256^n |
| Challenge.FromToBytes | lab_zkp.py:58 | decoding a fixed-length big-endian encoding of n < 256^len gives back n |
| Challenge.ToFromBytes | lab_zkp.py:58 | encoding the decoded value at the same length gives back the byte string, so decoding loses nothing |
| Challenge.ToChallenge | lab_zkp.py:54-58 | the challenge of an ordered point list is a natural number below 2^256 |
| Challenge.ChallengeMatchesDigest | lab_zkp.py:54-58 | two point lists get the same challenge if and only if their digests are equal |
| Challenge.ChallengeIsDigestValue | lab_zkp.py:54-58 | every value below 2^256 is the challenge of the digest that encodes it; nothing is reduced modulo the order |
| Challenge.ChallengeMayExceedOrder | lab_zkp.py:54-58 | a digest can yield a challenge at or above the secp224r1 order |
| Zkp.Response | lab_zkp.py:74 | the response `o + w - c*x % o` lies in `(w, w + o]` and is congruent to `w - c*x` modulo `o` |
| Zkp.KeyGen | lab_zkp.py:42-47 | the private key lies in `[1, o)` and the public key is `priv*g` |
| Zkp.ProveKey | lab_zkp.py:64-75 | the challenge is below 2^256; the response is strictly positive, in `(w, w + o]`, and satisfies `r + c*priv ≡ w (mod o)` |
| Zkp.VerifyKey | lab_zkp.py:78-85 | an accepted proof carries a challenge in `[0, 2^256)` |
| Zkp.Commit | lab_zkp.py:91-100 | succeeds exactly for four secrets (else the secret-count error); the result is a commitment that opens to the secrets with opening `r`: `C = r*g + x0*h0 + x1*h1 + x2*h2 + x3*h3` |
| Zkp.SumOfFive | lab_zkp.py:99 | the left-to-right chain of point additions in `commit` equals the exact linear combination reduced once |
| Zkp.ProveCommitment | lab_zkp.py:103-119 | succeeds exactly for four secrets; five responses; each of the first four lies in `(w_i, w_i + o]` and is congruent to `w_i - c*x_i`; the last satisfies `rr + r*c == 0` |
| Zkp.CommitmentResponses | lab_zkp.py:115-118 | five responses; each of the first four lies in `(w_i, w_i + o]` and is congruent to `w_i - c*x_i` modulo `o`; the last one cancels the opening: `rr + r*c == 0` |
| Zkp.VerifyCommitments | lab_zkp.py:122-132 | fails to unpack exactly when the response list is not of length 5; an accepted proof carries a challenge in `[0, 2^256)` |
| Zkp.Gen2Keys | lab_zkp.py:138-146 | `K = x*g` and `L = x*h0` for the same secret `x` in `[1, o)` |
| Zkp.ProveDlEquality | lab_zkp.py:149-159 | the response `(w - c*x) % o` lies in `[0, o)` and satisfies `r + c*x ≡ w (mod o)` |
| Zkp.Encrypt | lab_zkp.py:177-184 | returns the randomness `k`, `a = k*g`, and a `b` that is a group element |
| Zkp.BinEncrypt | lab_zkp.py:258-264 | succeeds exactly for messages 0 and 1 (else the not-binary error) and then yields the ciphertext of `encrypt` |
| Zkp.Relation | lab_zkp.py:219-228 | `x0 = 10*x1 + 20`, and `C` is a commitment to `[x0, x1, 0, 0]` with opening `r` |
| Zkp.ProveSomething | lab_zkp.py:321-340 | keeps the simulated `c1` and `rx`; `c2` and `ry` lie in `[0, o)`; `ry + c2*y ≡ wy (mod o)`; `c1 + c2` is congruent modulo `o` to the challenge of `[g, KX, KY, rx*g + c1*KX, wy*g]` |
| Zkp.VerifySomething | lab_zkp.py:357-360 | restates the test's congruence check: accepts exactly when `c1 + c2` minus the challenge of the re-computed `[g, KX, KY, rx*g + c1*KX, ry*g + c2*KY]` is a multiple of `o`; that honest proofs pass is `Completeness.SomethingComplete` |
| Completeness.KeyFirstMoveRecomputed | lab_zkp.py:72-84 | when `pub = priv*g`, the verifier's `c*pub + r*g` equals the prover's `w*g` |
| Completeness.KeyProofComplete | lab_zkp.py:64-85 | `verify_key` accepts every proof made by `prove_key` for `pub = priv*g`, for every hash and nonce |
| Completeness.KeyGenProofComplete | lab_zkp_test.py:19-25 | a key pair from `key_gen`, proved with `prove_key`, passes `verify_key` |
| Completeness.CommitmentFirstMoveRecomputed | lab_zkp.py:112-129 | when `C` opens to the secrets with opening `r`, `c*C + Σ r_i*h_i + rr*g` equals `Σ w_i*h_i`, despite `rr = -r*c` and no `g` nonce |
| Completeness.CommitmentProofComplete | lab_zkp.py:103-132 | for any `C` that opens to the secrets with `r`, `prove_commitment` succeeds and `verify_commitments` returns true |
| Completeness.CommitProofComplete | lab_zkp_test.py:45-52 | `commit` then `prove_commitment` then `verify_commitments` returns true |
| Completeness.CommitmentProofRevealsOpening | lab_zkp.py:118 | whenever the challenge is non-zero, the opening `r` equals `-(rr / c)`, computable from the proof alone |
| Completeness.RelationCommitmentProvable | lab_zkp.py:219-228 | the commitment from `relation`, with secrets `[x0, x1, 0, 0]`, passes the commitment proof |
| Completeness.DlEqualityComplete | lab_zkp.py:149-159 | for keys from `gen2_keys`, `r*g + c*K = w*g` and `r*h0 + c*L = w*h0`, so re-hashing `[g, h0, K, K', L, L']` reproduces `c` |
| Completeness.EncryptionUnmasks | lab_zkp.py:177-184 | when `pub = priv*g`, `b - priv*a` is `m*h0`: the ciphertext is ElGamal with `m` encoded as `m*h0` |
| Completeness.SomethingComplete | lab_zkp.py:321-360 | for every `KX`, and `KY = y*g`, the check of `test_prove_something` accepts the proof of `prove_something`; the prover needs no discrete log of `KX` |

## Left out

- Curve arithmetic, coordinate extraction and `_point_to_bytes` (`lab_zkp.py:50-52`) are replaced by the Z_o abstraction. Because the byte encoding uses minimal-length integers and a `,` separator that can also occur inside coordinates, it is not claimed to be injective.
- SHA-256 internals are not modelled; the hash is an arbitrary function to 32-byte digests.
- The randomness source and the `@cache` memoisation of `setup` are not modelled; parameters and nonces are explicit arguments.
- The library's treatment of negative scalars is not visible. The model gives every negative scalar the mathematical meaning modulo `o` and makes no claim about the library. This covers `rr*g` with `rr = -r*c` (`lab_zkp.py:118`, `129`), a negative secret in `commit` (`lab_zkp.py:99`), a negative message in `encrypt` (`lab_zkp.py:183`), a negative `x1` in `relation` (`lab_zkp.py:226`), and any negative challenge or response handed to a verifier. The completeness of the commitment proof (`Completeness.CommitmentProofComplete`) rests on that meaning.
- Primality of the order is not part of `Group.Valid`; completeness does not depend on it.
- `verify_dl_equality`, `prove_enc`/`verify_enc`, `prove_x0eq10x1plus20`/`verify_x0eq10x1plus20`, `prove_bin`/`verify_bin` and the Task 6 tests have no implementation (`lab_zkp.py:162-171`, `187-213`, `231-251`, `267-294`), so there is nothing to model. The discrete-log-equality check is stated in `Completeness.DlEqualityComplete` as the re-hash a verifier would perform.
- Soundness and zero-knowledge, and the "incorrect proof" tests (`lab_zkp_test.py:29-37`, `56-69`, `87-95`, `114-123`, `139-143`), are probabilistic and rest on hash collision resistance, so they are not stated.
- The prose answers to questions Q1 and Q2 (`lab_zkp.py:297-318`) are not code.
- Zkp.VerifyKey: its own contract only bounds the challenge of an accepted proof; what it accepts is stated by `Completeness.KeyProofComplete`.
- Zkp.VerifyCommitments: its own contract only states the unpacking failure and the challenge bound; what it accepts is stated by `Completeness.CommitmentProofComplete`.
- Zkp.Encrypt: its own contract does not describe `b` beyond membership in the group; its meaning is stated by `Completeness.EncryptionUnmasks`.
- Group.Add: its own contract only places the sum in the group; the laws it obeys together with `Group.Mul` are the lemmas `Group.AddMuls` and `Group.AddTerm`.
- Group.Mul: its own contract only places the product in the group; that scalars act modulo the order and compose is stated by `Group.MulShift` and `Group.MulMul`.
- Zkp.VerifySomething: its own contract only restates the congruence check of `test_prove_something` as a divisibility; that the check accepts honest proofs is stated by `Completeness.SomethingComplete`.
