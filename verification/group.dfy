/**
 The prime-order curve group (secp224r1 in the modelled code), abstracted as
 the additive group of integers modulo its order `o`. A point is represented
 by its discrete logarithm with respect to the curve's fixed base point, an
 integer in `[0, o)`; point addition and scalar multiplication become
 addition and multiplication modulo `o`.
 */
module Group {
  import opened ModArith

  /** A point, given by its discrete log relative to the base point. */
  type Point = int

  /** The order of the secp224r1 group (the curve selected by `setup`). */
  const Secp224r1Order: nat := 0xFFFFFFFFFFFFFFFFFFFFFFFFFFFF16A2E0B8F03E13DD29455C5C2A3D

  /** The curve's canonical base point; its discrete log is 1 by definition. */
  const BasePoint: Point := 1

  /** The public parameters `(g, [h0, h1, h2, h3], o)`. */
  datatype Params = Params(g: Point, h0: Point, h1: Point, h2: Point, h3: Point, o: nat)

  predicate InGroup(P: Point, o: nat) {
    0 <= P < o
  }

  /** A point other than the identity (the identity has discrete log 0). */
  predicate NonIdentity(P: Point, o: nat) {
    0 < P < o
  }

  /** What `setup` guarantees: a non-trivial order and five non-identity generators. */
  predicate Valid(p: Params) {
    && p.o > 1
    && NonIdentity(p.g, p.o)
    && NonIdentity(p.h0, p.o)
    && NonIdentity(p.h1, p.o)
    && NonIdentity(p.h2, p.o)
    && NonIdentity(p.h3, p.o)
  }

  /** Point addition `P + Q`. */
  function Add(P: Point, Q: Point, o: nat): (R: Point)
    requires o > 0
    ensures InGroup(R, o)
  {
    (P + Q) % o
  }

  /** Scalar multiplication `s * P`. The scalar may be any integer, including
      an unreduced or negative one; the result is its meaning modulo `o`. */
  function Mul(s: int, P: Point, o: nat): (R: Point)
    requires o > 0
    ensures InGroup(R, o)
  {
    (s * P) % o
  }

  /** `setup`: five scalars drawn from `[1, o)` multiply the base point. */
  function Setup(scalars: seq<int>): (p: Params)
    requires |scalars| == 5
    requires forall i :: 0 <= i < 5 ==> 1 <= scalars[i] < Secp224r1Order
    ensures Valid(p) && p.o == Secp224r1Order
    ensures p.g == scalars[0] && p.h0 == scalars[1] && p.h1 == scalars[2]
    ensures p.h2 == scalars[3] && p.h3 == scalars[4]
  {
    var o := Secp224r1Order;
    BaseMultiple(scalars[0], o);
    BaseMultiple(scalars[1], o);
    BaseMultiple(scalars[2], o);
    BaseMultiple(scalars[3], o);
    BaseMultiple(scalars[4], o);
    Params(Mul(scalars[0], BasePoint, o), Mul(scalars[1], BasePoint, o), Mul(scalars[2], BasePoint, o),
           Mul(scalars[3], BasePoint, o), Mul(scalars[4], BasePoint, o), o)
  }

  /** A reduced scalar times the base point is the point with that discrete log. */
  lemma BaseMultiple(s: int, o: nat)
    requires 0 <= s < o
    ensures Mul(s, BasePoint, o) == s
  {
    DivModUnique(s * BasePoint, o, 0, s);
  }

  /** `s * (t * P) == (s * t) * P` */
  lemma MulMul(s: int, t: int, P: Point, o: nat)
    requires o > 0
    ensures Mul(s, Mul(t, P, o), o) == Mul(s * t, P, o)
  {
    MulMod(s, t * P, o);
    assert s * (t * P) == (s * t) * P;
  }

  /** `s * P + t * P == (s + t) * P` */
  lemma AddMuls(s: int, t: int, P: Point, o: nat)
    requires o > 0
    ensures Add(Mul(s, P, o), Mul(t, P, o), o) == Mul(s + t, P, o)
  {
    AddMod(s * P, t * P, o);
    assert s * P + t * P == (s + t) * P;
  }

  /** Scalars act modulo the order: `(s + k*o) * P == s * P`. */
  lemma MulShift(s: int, k: int, P: Point, o: nat)
    requires o > 0
    ensures Mul(s + k * o, P, o) == Mul(s, P, o)
  {
    assert (s + k * o) * P == s * P + (k * P) * o;
    ShiftMod(s * P, k * P, o);
  }

  /** Adding `s * P` to a point given as the reduction of an exact integer
      `X` gives the reduction of `X + s*P`. */
  lemma AddTerm(X: int, s: int, P: Point, o: nat)
    requires o > 0
    ensures Add(X % o, Mul(s, P, o), o) == (X + s * P) % o
  {
    AddMod(X, s * P, o);
    assert (X % o) % o == X % o by {
      DivModUnique(X % o, o, 0, X % o);
    }
  }
}
