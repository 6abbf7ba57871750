/**
 The Fiat-Shamir challenge `to_challenge`: the ordered list of points is
 hashed with SHA-256 and the 32-byte digest is read as a big-endian
 unsigned integer, which is NOT reduced modulo the group order.

 SHA-256 and the byte serialisation of the points stay uninterpreted: the
 hash is a parameter, a total function from an ordered list of points to a
 32-byte digest.
 */
module Challenge {
  import opened ModArith
  import opened Group

  newtype byte = x: int | 0 <= x < 256

  /** The SHA-256 digest length in bytes. */
  const DigestSize: nat := 32

  type Digest = s: seq<byte> | |s| == DigestSize witness seq(DigestSize, _ => 0)

  /** SHA-256 applied to the serialisation of an ordered list of points. */
  type Hash = seq<Point> -> Digest

  function Pow256(n: nat): (r: nat)
    ensures r > 0
  {
    if n == 0 then 1 else 256 * Pow256(n - 1)
  }

  /** 2^256, the exclusive upper bound of a challenge. */
  const ChallengeBound: nat := 0x1_0000000000000000_0000000000000000_0000000000000000_0000000000000000

  lemma {:induction false} Pow256Add(a: nat, b: nat)
    ensures Pow256(a + b) == Pow256(a) * Pow256(b)
  {
    if a > 0 {
      Pow256Add(a - 1, b);
    }
  }

  lemma Pow256Double(n: nat, v: nat)
    requires Pow256(n) == v
    ensures Pow256(n + n) == v * v
  {
    Pow256Add(n, n);
  }

  lemma ChallengeBoundIsDigestRange()
    ensures Pow256(DigestSize) == ChallengeBound
  {
    var v1: nat := 0x100;
    assert Pow256(1) == v1;
    var v2 := v1 * v1;
    Pow256Double(1, v1);
    var v4 := v2 * v2;
    Pow256Double(2, v2);
    var v8 := v4 * v4;
    Pow256Double(4, v4);
    var v16 := v8 * v8;
    Pow256Double(8, v8);
    Pow256Double(16, v16);
    assert v16 * v16 == ChallengeBound;
  }

  /** `Integer.from_bytes`: big-endian decoding of a byte string. A string of
      `n` bytes decodes to a value below 256^n. */
  function FromBytes(bs: seq<byte>): (v: nat)
    ensures v < Pow256(|bs|)
  {
    if |bs| == 0 then 0
    else
      var front := FromBytes(bs[..|bs| - 1]);
      assert front * 256 <= Pow256(|bs| - 1) * 256 - 256;
      front * 256 + bs[|bs| - 1] as nat
  }

  /** Big-endian encoding of `n` into exactly `len` bytes (high bytes beyond
      `len` are dropped); the inverse of `FromBytes` on values below 256^len. */
  function ToBytes(n: nat, len: nat): (bs: seq<byte>)
    ensures |bs| == len
  {
    if len == 0 then [] else ToBytes(n / 256, len - 1) + [(n % 256) as byte]
  }

  /** The quotient of a value below `d*P` by `d` is below `P`. */
  lemma DivBelow(n: nat, d: nat, P: nat)
    requires d > 0 && n < d * P
    ensures n / d < P
  {
    DivModUnique(n, d, n / d, n % d);
  }

  /** Decoding inverts encoding for every value that fits. */
  lemma {:induction false} FromToBytes(n: nat, len: nat)
    requires n < Pow256(len)
    ensures FromBytes(ToBytes(n, len)) == n
  {
    if len > 0 {
      var bs := ToBytes(n, len);
      assert bs[..len - 1] == ToBytes(n / 256, len - 1);
      DivBelow(n, 256, Pow256(len - 1));
      FromToBytes(n / 256, len - 1);
      DivModUnique(n, 256, n / 256, n % 256);
    }
  }

  /** Encoding inverts decoding: no byte string is lost by `FromBytes`. */
  lemma {:induction false} ToFromBytes(bs: seq<byte>)
    ensures ToBytes(FromBytes(bs), |bs|) == bs
  {
    if |bs| > 0 {
      var front := bs[..|bs| - 1];
      var n := FromBytes(bs);
      DivModUnique(n, 256, FromBytes(front), bs[|bs| - 1] as int);
      ToFromBytes(front);
      assert ToBytes(n, |bs|) == front + [bs[|bs| - 1]];
    }
  }

  /** `to_challenge`: the big-endian value of the digest of the ordered points. */
  function ToChallenge(hash: Hash, elements: seq<Point>): (c: nat)
    ensures c < ChallengeBound
  {
    ChallengeBoundIsDigestRange();
    FromBytes(hash(elements))
  }

  /** Two point lists receive the same challenge exactly when their digests
      agree: reading the digest as an integer loses nothing. */
  lemma ChallengeMatchesDigest(hash: Hash, xs: seq<Point>, ys: seq<Point>)
    ensures ToChallenge(hash, xs) == ToChallenge(hash, ys) <==> hash(xs) == hash(ys)
  {
    ToFromBytes(hash(xs));
    ToFromBytes(hash(ys));
  }

  /** Every value below 2^256 is the challenge of the digest that encodes it,
      including values at or above the group order: the challenge is never
      reduced modulo the order. */
  lemma ChallengeIsDigestValue(hash: Hash, xs: seq<Point>, n: nat)
    requires n < ChallengeBound
    requires hash(xs) == ToBytes(n, DigestSize)
    ensures ToChallenge(hash, xs) == n
  {
    ChallengeBoundIsDigestRange();
    FromToBytes(n, DigestSize);
  }

  /** In particular a digest may decode to the secp224r1 order itself or above. */
  lemma ChallengeMayExceedOrder(hash: Hash, xs: seq<Point>)
    requires hash(xs) == ToBytes(Secp224r1Order, DigestSize)
    ensures ToChallenge(hash, xs) >= Secp224r1Order
  {
    ChallengeIsDigestValue(hash, xs, Secp224r1Order);
  }
}
