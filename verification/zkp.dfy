/**
 The Sigma-protocol suite of `lab_zkp.py` over the group abstraction of
 module `Group`: the witness generators, the prove/verify pairs that have
 code, and the OR-style `prove_something` with the check its test performs.

 Every nonce the code draws with `Integer.random_range(1, o)` is an explicit
 parameter `w` with `1 <= w < o`; the hash behind `to_challenge` is the
 parameter `hash`.
 */
module Zkp {
  import opened ModArith
  import opened Group
  import opened Challenge

  /** The failures the code raises instead of returning a value. */
  datatype Error =
    | WrongSecretCount(count: nat)    // `commit` asserts 4 secrets; `prove_commitment` unpacks 4
    | WrongResponseCount(count: nat)  // `verify_commitments` unpacks 5 responses
    | NotBinary(m: int)               // `bin_encrypt` asserts `m in [0, 1]`

  datatype Result<T> = Ok(value: T) | Err(error: Error)

  datatype KeyPair = KeyPair(priv: int, pub: Point)

  /** `ProofOfKey`: a challenge and one response (also the shape of the
      discrete-log-equality proof). */
  datatype KeyProof = KeyProof(c: int, r: int)

  /** The commitment `C` and its opening `r`. */
  datatype Committed = Committed(C: Point, r: int)

  /** `ProofOfCommitment`: a challenge and the response list `[r0, r1, r2, r3, rr]`. */
  datatype CommitmentProof = CommitmentProof(c: int, responses: seq<int>)

  /** The output of `gen2_keys`: a secret and two public keys built from it. */
  datatype DlKeys = DlKeys(x: int, K: Point, L: Point)

  datatype CipherText = CipherText(a: Point, b: Point)

  /** The output of `encrypt`: the encryption randomness and the ciphertext. */
  datatype Encryption = Encryption(k: int, ct: CipherText)

  /** The output of `relation`. */
  datatype RelationCommitment = RelationCommitment(C: Point, x0: int, x1: int, r: int)

  /** The output of `prove_something`: two sub-challenges and two responses. */
  datatype SomethingProof = SomethingProof(c1: int, c2: int, rx: int, ry: int)

  /** A value `Integer.random_range(min_inclusive=1, max_exclusive=o)` can return. */
  predicate IsNonce(w: int, p: Params) {
    1 <= w < p.o
  }

  /** The Pedersen-commitment relation `C = x0*h0 + x1*h1 + x2*h2 + x3*h3 + r*g`,
      stated on exact integers and reduced once. */
  predicate Opens(p: Params, C: Point, xs: seq<int>, r: int)
    requires p.o > 0
  {
    && |xs| == 4
    && C == (xs[0] * p.h0 + xs[1] * p.h1 + xs[2] * p.h2 + xs[3] * p.h3 + r * p.g) % p.o
  }

  /** The response `o + w - c*x % o` used by `prove_key` and `prove_commitment`.
      Python reads it as `o + w - ((c*x) % o)`, so it is never reduced: it
      lies in `(w, w + o]`, yet it is congruent to `w - c*x`. */
  function Response(w: int, c: int, x: int, o: nat): (r: int)
    requires o > 0
    ensures w < r <= w + o
    ensures (r + c * x) % o == w % o
  {
    var t := c * x;
    ShiftMod(w, 1 + t / o, o);
    assert o + w - t % o + t == w + (1 + t / o) * o;
    o + w - t % o
  }

  // ---------------------------------------------------------------------
  // Key generation and the knowledge-of-key (Schnorr) proof

  /** `key_gen`, with the sampled private key passed in. */
  function KeyGen(p: Params, priv: int): (kp: KeyPair)
    requires Valid(p) && IsNonce(priv, p)
    ensures kp.priv == priv && 1 <= kp.priv < p.o
    ensures kp.pub == Mul(kp.priv, p.g, p.o)
  {
    KeyPair(priv, Mul(priv, p.g, p.o))
  }

  /** `prove_key`: first move `W = w*g`, challenge over `[g, pub, W]`. */
  function ProveKey(hash: Hash, p: Params, priv: int, pub: Point, w: int): (proof: KeyProof)
    requires Valid(p) && IsNonce(w, p)
    ensures 0 <= proof.c < ChallengeBound
    ensures 0 < w < proof.r <= w + p.o
    ensures (proof.r + proof.c * priv) % p.o == w
  {
    var o := p.o;
    var bigW := Mul(w, p.g, o);
    var c := ToChallenge(hash, [p.g, pub, bigW]);
    DivModUnique(w, o, 0, w);
    KeyProof(c, Response(w, c, priv, o))
  }

  /** `verify_key`: recompute `W' = c*pub + r*g` and re-hash `[g, pub, W']`. */
  function VerifyKey(hash: Hash, p: Params, pub: Point, proof: KeyProof): (ok: bool)
    requires Valid(p)
    ensures ok ==> 0 <= proof.c < ChallengeBound
  {
    var o := p.o;
    var wPrime := Add(Mul(proof.c, pub, o), Mul(proof.r, p.g, o), o);
    ToChallenge(hash, [p.g, pub, wPrime]) == proof.c
  }

  // ---------------------------------------------------------------------
  // Commitment and the proof of knowledge of its opening

  /** `commit`: `C = x0*h0 + x1*h1 + x2*h2 + x3*h3 + r*g`, with the opening
      `r` passed in. Any other number of secrets fails the assertion. */
  function Commit(p: Params, secrets: seq<int>, r: int): (res: Result<Committed>)
    requires Valid(p) && IsNonce(r, p)
    ensures res.Ok? <==> |secrets| == 4
    ensures res.Err? ==> res.error == WrongSecretCount(|secrets|)
    ensures res.Ok? ==> res.value.r == r && Opens(p, res.value.C, secrets, r)
  {
    if |secrets| != 4 then Err(WrongSecretCount(|secrets|))
    else
      var o := p.o;
      var C := Add(Add(Add(Add(Mul(secrets[0], p.h0, o), Mul(secrets[1], p.h1, o), o),
                           Mul(secrets[2], p.h2, o), o),
                       Mul(secrets[3], p.h3, o), o),
                   Mul(r, p.g, o), o);
      SumOfFive(p, secrets[0], secrets[1], secrets[2], secrets[3], r);
      Ok(Committed(C, r))
  }

  /** The left-to-right chain of point additions in `commit` equals the
      exact linear combination reduced once. */
  lemma SumOfFive(p: Params, x0: int, x1: int, x2: int, x3: int, r: int)
    requires p.o > 0
    ensures
      var o := p.o;
      Add(Add(Add(Add(Mul(x0, p.h0, o), Mul(x1, p.h1, o), o), Mul(x2, p.h2, o), o),
              Mul(x3, p.h3, o), o), Mul(r, p.g, o), o)
      == (x0 * p.h0 + x1 * p.h1 + x2 * p.h2 + x3 * p.h3 + r * p.g) % p.o
  {
    var o := p.o;
    FourTerms(o, x0, p.h0, x1, p.h1, x2, p.h2, x3, p.h3);
    AddTerm(x0 * p.h0 + x1 * p.h1 + x2 * p.h2 + x3 * p.h3, r, p.g, o);
  }

  /** The chain `s0*P0 + s1*P1 + s2*P2 + s3*P3` equals the exact sum reduced once. */
  lemma FourTerms(o: nat, s0: int, P0: Point, s1: int, P1: Point, s2: int, P2: Point, s3: int, P3: Point)
    requires o > 0
    ensures Add(Add(Add(Mul(s0, P0, o), Mul(s1, P1, o), o), Mul(s2, P2, o), o), Mul(s3, P3, o), o)
            == (s0 * P0 + s1 * P1 + s2 * P2 + s3 * P3) % o
  {
    AddTerm(s0 * P0, s1, P1, o);
    AddTerm(s0 * P0 + s1 * P1, s2, P2, o);
    AddTerm(s0 * P0 + s1 * P1 + s2 * P2, s3, P3, o);
  }

  /** `prove_commitment`, with its four nonces `w` passed in. The first move
      uses only `h0..h3` (no nonce for `g`), the first four responses are
      unreduced and the last one is `-r*c`. */
  function ProveCommitment(hash: Hash, p: Params, C: Point, r: int, secrets: seq<int>, w: seq<int>)
    : (res: Result<CommitmentProof>)
    requires Valid(p)
    requires |w| == 4 && forall i :: 0 <= i < 4 ==> IsNonce(w[i], p)
    ensures res.Ok? <==> |secrets| == 4
    ensures res.Err? ==> res.error == WrongSecretCount(|secrets|)
    ensures res.Ok? ==>
      && 0 <= res.value.c < ChallengeBound
      && |res.value.responses| == 5
      && (forall i :: 0 <= i < 4 ==> AnswersNonce(res.value.responses[i], w[i], res.value.c, secrets[i], p.o))
      && res.value.responses[4] + r * res.value.c == 0
  {
    if |secrets| != 4 then Err(WrongSecretCount(|secrets|))
    else
      var o := p.o;
      var bigW := Add(Add(Add(Mul(w[0], p.h0, o), Mul(w[1], p.h1, o), o), Mul(w[2], p.h2, o), o),
                      Mul(w[3], p.h3, o), o);
      var c := ToChallenge(hash, [p.g, p.h0, p.h1, p.h2, p.h3, C, bigW]);
      assert forall i :: 0 <= i < 4 ==> IsNonce(w[i], p);
      Ok(CommitmentProof(c, CommitmentResponses(c, r, secrets, w, o)))
  }

  /** The response list of `prove_commitment`: the unreduced response for each
      secret, then `-r*c` for the opening. */
  function CommitmentResponses(c: int, r: int, secrets: seq<int>, w: seq<int>, o: nat): (rs: seq<int>)
    requires o > 0 && |secrets| == 4 && |w| == 4
    requires forall i :: 0 <= i < 4 ==> 0 <= w[i] < o
    ensures |rs| == 5
    ensures forall i :: 0 <= i < 4 ==> AnswersNonce(rs[i], w[i], c, secrets[i], o)
    ensures rs[4] + r * c == 0
  {
    ResponseAnswers(w[0], c, secrets[0], o);
    ResponseAnswers(w[1], c, secrets[1], o);
    ResponseAnswers(w[2], c, secrets[2], o);
    ResponseAnswers(w[3], c, secrets[3], o);
    [Response(w[0], c, secrets[0], o), Response(w[1], c, secrets[1], o),
     Response(w[2], c, secrets[2], o), Response(w[3], c, secrets[3], o),
     -r * c]
  }

  lemma NonceIsReduced(w: int, o: nat)
    requires 0 <= w < o
    ensures w % o == w
  {
    DivModUnique(w, o, 0, w);
  }

  /** `rr` answers the nonce `w` for the secret `x` under challenge `c`:
      it is the unreduced response, in `(w, w + o]` and congruent to `w - c*x`. */
  predicate AnswersNonce(rr: int, w: int, c: int, x: int, o: nat)
    requires o > 0
  {
    w < rr <= w + o && (rr + c * x) % o == w
  }

  lemma ResponseAnswers(w: int, c: int, x: int, o: nat)
    requires 0 <= w < o
    ensures AnswersNonce(Response(w, c, x, o), w, c, x, o)
  {
    NonceIsReduced(w, o);
  }

  /** The reduced response `(w - c*x) % o` is congruent to `w - c*x`. */
  lemma ReducedResponse(w: int, c: int, x: int, o: nat)
    requires 0 <= w < o
    ensures 0 <= (w - c * x) % o < o
    ensures ((w - c * x) % o + c * x) % o == w
  {
    var d := w - c * x;
    assert d % o + c * x == w + (-(d / o)) * o;
    ShiftMod(w, -(d / o), o);
    NonceIsReduced(w, o);
  }

  /** With `c2 = (c - c1) % o`, the sub-challenges add up to `c` modulo `o`. */
  lemma SplitChallenge(c: int, c1: int, o: nat)
    requires o > 0
    ensures (c1 + (c - c1) % o) % o == c % o
  {
    var d := c - c1;
    assert c1 + d % o == c + (-(d / o)) * o;
    ShiftMod(c, -(d / o), o);
  }

  /** `verify_commitments`: recompute `W' = c*C + r0*h0 + r1*h1 + r2*h2 + r3*h3 + rr*g`
      and re-hash. A response list of any length but 5 fails to unpack. */
  function VerifyCommitments(hash: Hash, p: Params, C: Point, proof: CommitmentProof): (res: Result<bool>)
    requires Valid(p)
    ensures res.Err? <==> |proof.responses| != 5
    ensures res.Err? ==> res.error == WrongResponseCount(|proof.responses|)
    ensures res == Ok(true) ==> 0 <= proof.c < ChallengeBound
  {
    if |proof.responses| != 5 then Err(WrongResponseCount(|proof.responses|))
    else
      var o := p.o;
      var rs := proof.responses;
      var wPrime := Add(Add(Add(Add(Add(Mul(proof.c, C, o), Mul(rs[0], p.h0, o), o), Mul(rs[1], p.h1, o), o),
                                Mul(rs[2], p.h2, o), o),
                            Mul(rs[3], p.h3, o), o),
                        Mul(rs[4], p.g, o), o);
      Ok(ToChallenge(hash, [p.g, p.h0, p.h1, p.h2, p.h3, C, wPrime]) == proof.c)
  }

  // ---------------------------------------------------------------------
  // Equality of discrete logarithms (prover side)

  /** `gen2_keys`, with the secret passed in: `K = x*g` and `L = x*h0`. */
  function Gen2Keys(p: Params, x: int): (keys: DlKeys)
    requires Valid(p) && IsNonce(x, p)
    ensures keys.x == x && 1 <= keys.x < p.o
    ensures keys.K == Mul(keys.x, p.g, p.o) && keys.L == Mul(keys.x, p.h0, p.o)
  {
    DlKeys(x, Mul(x, p.g, p.o), Mul(x, p.h0, p.o))
  }

  /** `prove_dl_equality`: first moves `Kw = w*g`, `Lw = w*h0`, challenge over
      `[g, h0, K, Kw, L, Lw]`, response `(w - c*x) % o`. */
  function ProveDlEquality(hash: Hash, p: Params, x: int, K: Point, L: Point, w: int): (proof: KeyProof)
    requires Valid(p) && IsNonce(w, p)
    ensures 0 <= proof.c < ChallengeBound
    ensures 0 <= proof.r < p.o
    ensures (proof.r + proof.c * x) % p.o == w
  {
    var o := p.o;
    var kw := Mul(w, p.g, o);
    var lw := Mul(w, p.h0, o);
    var c := ToChallenge(hash, [p.g, p.h0, K, kw, L, lw]);
    ReducedResponse(w, c, x, o);
    KeyProof(c, (w - c * x) % o)
  }

  // ---------------------------------------------------------------------
  // ElGamal-style encryption and the linear-relation commitment

  /** `encrypt`, with the randomness `k` passed in: `(k*g, k*pub + m*h0)`. */
  function Encrypt(p: Params, pub: Point, m: int, k: int): (e: Encryption)
    requires Valid(p) && IsNonce(k, p)
    ensures e.k == k && e.ct.a == Mul(k, p.g, p.o)
    ensures InGroup(e.ct.b, p.o)
  {
    var o := p.o;
    Encryption(k, CipherText(Mul(k, p.g, o), Add(Mul(k, pub, o), Mul(m, p.h0, o), o)))
  }

  /** `bin_encrypt`: the encryption of `encrypt`, refused for any message
      other than 0 or 1. */
  function BinEncrypt(p: Params, pub: Point, m: int, k: int): (res: Result<Encryption>)
    requires Valid(p) && IsNonce(k, p)
    ensures res.Ok? <==> m == 0 || m == 1
    ensures res.Err? ==> res.error == NotBinary(m)
    ensures res.Ok? ==> res.value.k == k && res.value.ct.a == Mul(k, p.g, p.o)
    ensures res.Ok? ==> res.value == Encrypt(p, pub, m, k)
  {
    if m != 0 && m != 1 then Err(NotBinary(m)) else Ok(Encrypt(p, pub, m, k))
  }

  /** `relation`, with the opening `r` passed in: `x0 = 10*x1 + 20` and
      `C = r*g + x1*h1 + x0*h0`. */
  function Relation(p: Params, x1: int, r: int): (rc: RelationCommitment)
    requires Valid(p) && IsNonce(r, p)
    ensures rc.x1 == x1 && rc.r == r
    ensures rc.x0 == 10 * x1 + 20
    ensures Opens(p, rc.C, [rc.x0, rc.x1, 0, 0], rc.r)
  {
    var o := p.o;
    var x0 := x1 * 10 + 20;
    var C := Add(Add(Mul(r, p.g, o), Mul(x1, p.h1, o), o), Mul(x0, p.h0, o), o);
    AddTerm(r * p.g, x1, p.h1, o);
    AddTerm(r * p.g + x1 * p.h1, x0, p.h0, o);
    assert r * p.g + x1 * p.h1 + x0 * p.h0
        == x0 * p.h0 + x1 * p.h1 + 0 * p.h2 + 0 * p.h3 + r * p.g;
    RelationCommitment(C, x0, x1, r)
  }

  // ---------------------------------------------------------------------
  // The OR-style proof of `prove_something` and the check of its test

  /** `prove_something`: the proof for `KX` is simulated from a chosen
      response `rx` and sub-challenge `c1`; the proof for `KY = y*g` is real,
      with nonce `wy`, and its sub-challenge is `c2 = (c - c1) % o`. */
  function ProveSomething(hash: Hash, p: Params, KX: Point, KY: Point, y: int, rx: int, c1: int, wy: int)
    : (proof: SomethingProof)
    requires Valid(p) && IsNonce(rx, p) && IsNonce(c1, p) && IsNonce(wy, p)
    ensures proof.c1 == c1 && proof.rx == rx
    ensures 0 <= proof.c2 < p.o && 0 <= proof.ry < p.o
    ensures (proof.ry + proof.c2 * y) % p.o == wy
    ensures (proof.c1 + proof.c2) % p.o
            == ToChallenge(hash, [p.g, KX, KY, Add(Mul(rx, p.g, p.o), Mul(c1, KX, p.o), p.o), Mul(wy, p.g, p.o)]) % p.o
  {
    var o := p.o;
    var wKX := Add(Mul(rx, p.g, o), Mul(c1, KX, o), o);
    var wKY := Mul(wy, p.g, o);
    var c := ToChallenge(hash, [p.g, KX, KY, wKX, wKY]);
    var c2 := (c - c1) % o;
    ReducedResponse(wy, c2, y, o);
    SplitChallenge(c, c1, o);
    SomethingProof(c1, c2, rx, (wy - c2 * y) % o)
  }

  /** The verification in `test_prove_something`: recompute both first moves
      and check `c % o == (c1 + c2) % o` for the re-hashed challenge. It
      accepts exactly when the two sub-challenges add up to the re-hashed
      challenge up to a multiple of the order. */
  function VerifySomething(hash: Hash, p: Params, KX: Point, KY: Point, proof: SomethingProof): (ok: bool)
    requires Valid(p)
    ensures
      var o := p.o;
      var c := ToChallenge(hash, [p.g, KX, KY, Add(Mul(proof.rx, p.g, o), Mul(proof.c1, KX, o), o),
                                  Add(Mul(proof.ry, p.g, o), Mul(proof.c2, KY, o), o)]);
      ok <==> (proof.c1 + proof.c2 - c) % o == 0
  {
    var o := p.o;
    var wKX := Add(Mul(proof.rx, p.g, o), Mul(proof.c1, KX, o), o);
    var wKY := Add(Mul(proof.ry, p.g, o), Mul(proof.c2, KY, o), o);
    var c := ToChallenge(hash, [p.g, KX, KY, wKX, wKY]);
    CongruentIff(proof.c1 + proof.c2, c, o);
    c % o == (proof.c1 + proof.c2) % o
  }
}
