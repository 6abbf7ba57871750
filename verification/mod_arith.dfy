/**
 Facts about Dafny's `%` and `/` with a positive divisor. For a positive
 modulus these agree with Python's `%` and `//` (the remainder is never
 negative), which is what the modelled code relies on.
 */
module ModArith {

  /** A product of a positive factor and a positive modulus is at least the modulus. */
  lemma MulAtLeast(d: int, o: int)
    requires d >= 1 && o > 0
    ensures d * o >= o
  {
    assert d * o == (d - 1) * o + o;
  }

  /** Quotient and remainder are unique: any decomposition `a == q*o + m`
      with `0 <= m < o` is the one `/` and `%` compute. */
  lemma DivModUnique(a: int, o: int, q: int, m: int)
    requires 0 <= m < o
    requires a == q * o + m
    ensures a / o == q && a % o == m
  {
    var q', m' := a / o, a % o;
    assert a == q' * o + m';
    if q' < q {
      assert (q - q') * o == m' - m;
      MulAtLeast(q - q', o);
      assert false;
    } else if q < q' {
      assert (q' - q) * o == m - m';
      MulAtLeast(q' - q, o);
      assert false;
    }
  }

  /** Adding a multiple of the modulus does not change the remainder. */
  lemma ShiftMod(x: int, k: int, o: int)
    requires o > 0
    ensures (x + k * o) % o == x % o
  {
    assert x + k * o == (x / o + k) * o + x % o;
    DivModUnique(x + k * o, o, x / o + k, x % o);
  }

  /** Remainders may be taken before or after an addition. */
  lemma AddMod(a: int, b: int, o: int)
    requires o > 0
    ensures (a % o + b % o) % o == (a + b) % o
  {
    assert a + b == (a % o + b % o) + (a / o + b / o) * o;
    ShiftMod(a % o + b % o, a / o + b / o, o);
  }

  /** The right factor of a product may be reduced before multiplying. */
  lemma MulMod(a: int, b: int, o: int)
    requires o > 0
    ensures (a * (b % o)) % o == (a * b) % o
  {
    var q, m := b / o, b % o;
    assert b == q * o + m;
    assert a * b == a * m + (a * q) * o by {
      assert a * b == a * (q * o) + a * m;
      assert a * (q * o) == (a * q) * o;
    }
    ShiftMod(a * m, a * q, o);
  }

  /** Two integers have the same remainder exactly when their difference is
      a multiple of the modulus. */
  lemma CongruentIff(a: int, b: int, o: int)
    requires o > 0
    ensures a % o == b % o <==> (a - b) % o == 0
  {
    var d := a % o - b % o;
    assert a - b == d + (a / o - b / o) * o;
    ShiftMod(d, a / o - b / o, o);
    if d > 0 {
      DivModUnique(d, o, 0, d);
    } else if d < 0 {
      DivModUnique(d, o, -1, d + o);
    } else {
      DivModUnique(d, o, 0, 0);
    }
  }
}
