/**
 Completeness of the modelled Sigma protocols: a proof built from a valid
 witness is accepted, for every hash function and every choice of nonces.
 Each protocol is complete because the point the verifier recomputes equals
 the prover's first move; the lemmas below prove that identity first and
 then the acceptance it implies.
 */
module Completeness {
  import opened ModArith
  import opened Group
  import opened Challenge
  import opened Zkp

  // ---------------------------------------------------------------------
  // Knowledge of a key

  /** `c*pub + r*g == w*g` when `pub = priv*g` and `r` is the unreduced response. */
  lemma KeyFirstMoveRecomputed(p: Params, priv: int, c: int, w: int)
    requires Valid(p) && IsNonce(w, p)
    ensures
      var o := p.o;
      Add(Mul(c, Mul(priv, p.g, o), o), Mul(Response(w, c, priv, o), p.g, o), o) == Mul(w, p.g, o)
  {
    var o := p.o;
    var r := Response(w, c, priv, o);
    ResponseAnswers(w, c, priv, o);
    ReducedSchnorr(o, r, c, priv, w, p.g);
    assert Add(Mul(c, Mul(priv, p.g, o), o), Mul(r, p.g, o), o)
        == Add(Mul(r, p.g, o), Mul(c, Mul(priv, p.g, o), o), o);
  }

  /** A proof made by `prove_key` for `pub = priv*g` passes `verify_key`. */
  lemma KeyProofComplete(hash: Hash, p: Params, priv: int, w: int)
    requires Valid(p) && IsNonce(w, p)
    ensures
      var pub := Mul(priv, p.g, p.o);
      VerifyKey(hash, p, pub, ProveKey(hash, p, priv, pub, w))
  {
    var proof := ProveKey(hash, p, priv, Mul(priv, p.g, p.o), w);
    KeyFirstMoveRecomputed(p, priv, proof.c, w);
  }

  /** The scenario of the key test: a freshly generated key pair, proved and verified. */
  lemma KeyGenProofComplete(hash: Hash, p: Params, priv: int, w: int)
    requires Valid(p) && IsNonce(priv, p) && IsNonce(w, p)
    ensures
      var kp := KeyGen(p, priv);
      VerifyKey(hash, p, kp.pub, ProveKey(hash, p, kp.priv, kp.pub, w))
  {
    KeyProofComplete(hash, p, priv, w);
  }

  // ---------------------------------------------------------------------
  // Knowledge of a commitment opening

  /** One message slot: the unreduced response cancels the secret up to a
      multiple of the order, `r*h + c*(x*h) == w*h + k*o`. */
  lemma SlotCancels(w: int, c: int, x: int, h: int, o: nat)
    requires o > 0
    ensures Response(w, c, x, o) * h + c * (x * h) == w * h + ((1 + (c * x) / o) * h) * o
  {
    var q := (c * x) / o;
    var r := Response(w, c, x, o);
    assert r == w - c * x + (1 + q) * o;
    assert r * h == w * h - (c * x) * h + ((1 + q) * h) * o;
    assert (c * x) * h == c * (x * h);
  }

  /** The integer identity behind the commitment proof: the responses and
      the commitment combine to the first move up to a multiple of `o`. */
  lemma CommitmentIdentity(p: Params, xs: seq<int>, r: int, c: int, w: seq<int>) returns (k: int)
    requires p.o > 0 && |xs| == 4 && |w| == 4
    ensures
      var o := p.o;
      var X := xs[0] * p.h0 + xs[1] * p.h1 + xs[2] * p.h2 + xs[3] * p.h3 + r * p.g;
      c * X + Response(w[0], c, xs[0], o) * p.h0 + Response(w[1], c, xs[1], o) * p.h1
        + Response(w[2], c, xs[2], o) * p.h2 + Response(w[3], c, xs[3], o) * p.h3 + (-r * c) * p.g
        == w[0] * p.h0 + w[1] * p.h1 + w[2] * p.h2 + w[3] * p.h3 + k * o
  {
    var o := p.o;
    SlotCancels(w[0], c, xs[0], p.h0, o);
    SlotCancels(w[1], c, xs[1], p.h1, o);
    SlotCancels(w[2], c, xs[2], p.h2, o);
    SlotCancels(w[3], c, xs[3], p.h3, o);
    var X := xs[0] * p.h0 + xs[1] * p.h1 + xs[2] * p.h2 + xs[3] * p.h3 + r * p.g;
    assert c * X == c * (xs[0] * p.h0) + c * (xs[1] * p.h1) + c * (xs[2] * p.h2) + c * (xs[3] * p.h3) + c * (r * p.g);
    assert (-r * c) * p.g == -(c * (r * p.g));
    k := (1 + (c * xs[0]) / o) * p.h0 + (1 + (c * xs[1]) / o) * p.h1
       + (1 + (c * xs[2]) / o) * p.h2 + (1 + (c * xs[3]) / o) * p.h3;
    assert k * o == ((1 + (c * xs[0]) / o) * p.h0) * o + ((1 + (c * xs[1]) / o) * p.h1) * o
                  + ((1 + (c * xs[2]) / o) * p.h2) * o + ((1 + (c * xs[3]) / o) * p.h3) * o;
  }

  /** `c*C + r0*h0 + r1*h1 + r2*h2 + r3*h3 + rr*g == w0*h0 + w1*h1 + w2*h2 + w3*h3`
      when `C` opens to the secrets with opening `r`, although `rr = -r*c` is
      unreduced and negative and the first move has no `g` term. */
  lemma CommitmentFirstMoveRecomputed(p: Params, C: Point, xs: seq<int>, r: int, c: int, w: seq<int>)
    requires Valid(p) && |w| == 4 && Opens(p, C, xs, r)
    ensures
      var o := p.o;
      Add(Add(Add(Add(Add(Mul(c, C, o), Mul(Response(w[0], c, xs[0], o), p.h0, o), o),
                          Mul(Response(w[1], c, xs[1], o), p.h1, o), o),
                      Mul(Response(w[2], c, xs[2], o), p.h2, o), o),
                  Mul(Response(w[3], c, xs[3], o), p.h3, o), o),
              Mul(-r * c, p.g, o), o)
      == Add(Add(Add(Mul(w[0], p.h0, o), Mul(w[1], p.h1, o), o), Mul(w[2], p.h2, o), o), Mul(w[3], p.h3, o), o)
  {
    var o := p.o;
    var X := xs[0] * p.h0 + xs[1] * p.h1 + xs[2] * p.h2 + xs[3] * p.h3 + r * p.g;
    var r0, r1, r2, r3 := Response(w[0], c, xs[0], o), Response(w[1], c, xs[1], o),
                          Response(w[2], c, xs[2], o), Response(w[3], c, xs[3], o);
    // the verifier's chain, as one exact sum reduced once
    MulMod(c, X, o);
    AddTerm(c * X, r0, p.h0, o);
    AddTerm(c * X + r0 * p.h0, r1, p.h1, o);
    AddTerm(c * X + r0 * p.h0 + r1 * p.h1, r2, p.h2, o);
    AddTerm(c * X + r0 * p.h0 + r1 * p.h1 + r2 * p.h2, r3, p.h3, o);
    AddTerm(c * X + r0 * p.h0 + r1 * p.h1 + r2 * p.h2 + r3 * p.h3, -r * c, p.g, o);
    // the prover's chain, likewise
    FourTerms(o, w[0], p.h0, w[1], p.h1, w[2], p.h2, w[3], p.h3);
    // the two exact sums differ by a multiple of the order
    var k := CommitmentIdentity(p, xs, r, c, w);
    ShiftMod(w[0] * p.h0 + w[1] * p.h1 + w[2] * p.h2 + w[3] * p.h3, k, o);
  }

  /** A proof made by `prove_commitment` from the secrets and opening of `C`
      passes `verify_commitments`. */
  lemma CommitmentProofComplete(hash: Hash, p: Params, C: Point, r: int, secrets: seq<int>, w: seq<int>)
    requires Valid(p)
    requires |w| == 4 && forall i :: 0 <= i < 4 ==> IsNonce(w[i], p)
    requires Opens(p, C, secrets, r)
    ensures ProveCommitment(hash, p, C, r, secrets, w).Ok?
    ensures VerifyCommitments(hash, p, C, ProveCommitment(hash, p, C, r, secrets, w).value) == Ok(true)
  {
    var proof := ProveCommitment(hash, p, C, r, secrets, w).value;
    CommitmentFirstMoveRecomputed(p, C, secrets, r, proof.c, w);
  }

  /** The scenario of the commitment test: `commit`, then prove and verify. */
  lemma CommitProofComplete(hash: Hash, p: Params, secrets: seq<int>, r: int, w: seq<int>)
    requires Valid(p) && IsNonce(r, p) && |secrets| == 4
    requires |w| == 4 && forall i :: 0 <= i < 4 ==> IsNonce(w[i], p)
    ensures
      var cm := Commit(p, secrets, r).value;
      var proof := ProveCommitment(hash, p, cm.C, cm.r, secrets, w);
      proof.Ok? && VerifyCommitments(hash, p, cm.C, proof.value) == Ok(true)
  {
    var cm := Commit(p, secrets, r).value;
    CommitmentProofComplete(hash, p, cm.C, cm.r, secrets, w);
  }

  /** The opening response `rr = -r*c` discloses the opening to anyone who
      sees the proof (whenever the challenge is non-zero), so the commitment
      proof is not zero-knowledge. */
  lemma CommitmentProofRevealsOpening(hash: Hash, p: Params, C: Point, r: int, secrets: seq<int>, w: seq<int>)
    requires Valid(p) && |secrets| == 4
    requires |w| == 4 && forall i :: 0 <= i < 4 ==> IsNonce(w[i], p)
    ensures
      var proof := ProveCommitment(hash, p, C, r, secrets, w).value;
      proof.c != 0 ==> -(proof.responses[4] / proof.c) == r
  {
    var proof := ProveCommitment(hash, p, C, r, secrets, w).value;
    if proof.c != 0 {
      assert proof.responses[4] == (-r) * proof.c;
      DivModUnique(proof.responses[4], proof.c, -r, 0);
    }
  }

  /** The commitment built by `relation` is a commitment to `[x0, x1, 0, 0]`
      with opening `r`, so the commitment proof goes through for it too. */
  lemma RelationCommitmentProvable(hash: Hash, p: Params, x1: int, r: int, w: seq<int>)
    requires Valid(p) && IsNonce(r, p)
    requires |w| == 4 && forall i :: 0 <= i < 4 ==> IsNonce(w[i], p)
    ensures
      var rc := Relation(p, x1, r);
      var proof := ProveCommitment(hash, p, rc.C, rc.r, [rc.x0, rc.x1, 0, 0], w);
      proof.Ok? && VerifyCommitments(hash, p, rc.C, proof.value) == Ok(true)
  {
    var rc := Relation(p, x1, r);
    CommitmentProofComplete(hash, p, rc.C, rc.r, [rc.x0, rc.x1, 0, 0], w);
  }

  // ---------------------------------------------------------------------
  // Equality of discrete logarithms

  /** For `K = x*g` and `L = x*h0`, the verifier's `r*g + c*K` and `r*h0 + c*L`
      are the prover's first moves `w*g` and `w*h0`, so re-hashing
      `[g, h0, K, K', L, L']` reproduces the challenge. */
  lemma DlEqualityComplete(hash: Hash, p: Params, x: int, w: int)
    requires Valid(p) && IsNonce(x, p) && IsNonce(w, p)
    ensures
      var o := p.o;
      var keys := Gen2Keys(p, x);
      var proof := ProveDlEquality(hash, p, keys.x, keys.K, keys.L, w);
      var kPrime := Add(Mul(proof.r, p.g, o), Mul(proof.c, keys.K, o), o);
      var lPrime := Add(Mul(proof.r, p.h0, o), Mul(proof.c, keys.L, o), o);
      && kPrime == Mul(w, p.g, o)
      && lPrime == Mul(w, p.h0, o)
      && ToChallenge(hash, [p.g, p.h0, keys.K, kPrime, keys.L, lPrime]) == proof.c
  {
    var o := p.o;
    var keys := Gen2Keys(p, x);
    var proof := ProveDlEquality(hash, p, keys.x, keys.K, keys.L, w);
    ReducedSchnorr(o, proof.r, proof.c, x, w, p.g);
    ReducedSchnorr(o, proof.r, proof.c, x, w, p.h0);
  }

  /** `r*P + c*(x*P) == w*P` whenever `r + c*x` is congruent to `w`. */
  lemma ReducedSchnorr(o: nat, r: int, c: int, x: int, w: int, P: Point)
    requires o > 0 && (r + c * x) % o == w
    ensures Add(Mul(r, P, o), Mul(c, Mul(x, P, o), o), o) == Mul(w, P, o)
  {
    MulMul(c, x, P, o);
    AddMuls(r, c * x, P, o);
    var d := r + c * x;
    assert d == w + (d / o) * o;
    MulShift(w, d / o, P, o);
  }

  // ---------------------------------------------------------------------
  // Encryption

  /** The ciphertext of `encrypt` is ElGamal: the holder of the private key
      of `pub` strips the mask `k*pub` from `b` and is left with `m*h0`. */
  lemma EncryptionUnmasks(p: Params, priv: int, m: int, k: int)
    requires Valid(p) && IsNonce(k, p)
    ensures
      var o := p.o;
      var e := Encrypt(p, Mul(priv, p.g, o), m, k);
      Add(e.ct.b, Mul(-priv, e.ct.a, o), o) == Mul(m, p.h0, o)
  {
    var o := p.o;
    var pub := Mul(priv, p.g, o);
    var e := Encrypt(p, pub, m, k);
    // a = (k*g) % o, and the mask k*pub is (k*priv)*g
    assert e.ct.a == Mul(k, p.g, o);
    MulMul(k, priv, p.g, o);
    assert Mul(k, pub, o) == Mul(k * priv, p.g, o);
    MulMul(-priv, k, p.g, o);
    // b = ((k*priv)*g + m*h0) % o
    var X := (k * priv) * p.g;
    AddTerm(X, m, p.h0, o);
    // b - priv*a = ((k*priv)*g + m*h0 - (priv*k)*g) % o = (m*h0) % o
    AddTerm(X + m * p.h0, -priv * k, p.g, o);
    assert (-priv * k) * p.g == -X by {
      assert -priv * k == -(k * priv);
    }
  }

  // ---------------------------------------------------------------------
  // The OR-style proof of `prove_something`

  /** The check of `test_prove_something` accepts what `prove_something`
      returns when `KY = y*g`, whatever `KX` is: the prover needs no
      discrete log of `KX`. */
  lemma SomethingComplete(hash: Hash, p: Params, KX: Point, y: int, rx: int, c1: int, wy: int)
    requires Valid(p) && IsNonce(rx, p) && IsNonce(c1, p) && IsNonce(wy, p)
    ensures
      var KY := Mul(y, p.g, p.o);
      VerifySomething(hash, p, KX, KY, ProveSomething(hash, p, KX, KY, y, rx, c1, wy))
  {
    var o := p.o;
    var KY := Mul(y, p.g, o);
    var proof := ProveSomething(hash, p, KX, KY, y, rx, c1, wy);
    ReducedSchnorr(o, proof.ry, proof.c2, y, wy, p.g);
  }
}
