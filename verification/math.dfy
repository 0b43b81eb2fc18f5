/**
 * Euclid's greatest common divisor and the least common multiple built on it,
 * over non-negative 64-bit integers.
 */
module Math {

  /** Largest value of a signed 64-bit integer (i64). */
  const MaxI64: int := 0x7fff_ffff_ffff_ffff

  /** `d` divides `a`: some integer multiple of `d` is `a`. */
  ghost predicate Divides(d: int, a: int)
  {
    exists k :: a == d * k
  }

  /** `g` is a greatest common divisor of `p` and `q` in the divisibility order. */
  ghost predicate IsGcd(g: int, p: int, q: int)
  {
    Divides(g, p) && Divides(g, q) &&
    forall d :: Divides(d, p) && Divides(d, q) ==> Divides(d, g)
  }

  /**
   * The recursive form of Euclid's algorithm: the value that the loop of
   * `Gcd` computes, one iteration per call.
   */
  function Euclid(p: nat, q: nat): (g: nat)
    ensures g == 0 <==> p == 0 && q == 0
    decreases q
  {
    if q == 0 then p else Euclid(q, p % q)
  }

  /** A common divisor of `a` and `b` divides every combination `m * a + b`. */
  lemma DividesCombination(d: int, a: int, b: int, m: int)
    requires Divides(d, a) && Divides(d, b)
    ensures Divides(d, m * a + b)
  {
    var i :| a == d * i;
    var j :| b == d * j;
    assert m * a + b == d * (m * i + j);
  }

  /** Euclid's recursion yields a greatest common divisor. */
  lemma {:induction false} EuclidIsGcd(p: nat, q: nat)
    ensures IsGcd(Euclid(p, q), p, q)
    decreases q
  {
    if q == 0 {
      assert p == p * 1;
      assert 0 == p * 0;
    } else {
      var g := Euclid(q, p % q);
      EuclidIsGcd(q, p % q);
      assert p == (p / q) * q + p % q;
      DividesCombination(g, q, p % q, p / q);
      forall d | Divides(d, p) && Divides(d, q)
        ensures Divides(d, g)
      {
        DividesCombination(d, q, p, -(p / q));
        assert -(p / q) * q + p == p % q;
      }
    }
  }

  /** Coefficients `x`, `y` with `x * p + y * q` equal to the gcd (Bezout's identity). */
  lemma {:induction false} Bezout(p: nat, q: nat) returns (x: int, y: int)
    ensures x * p + y * q == Euclid(p, q)
    decreases q
  {
    if q == 0 {
      x, y := 1, 0;
    } else {
      var x', y' := Bezout(q, p % q);
      var t := p / q;
      assert p % q == p - t * q;
      x, y := y', x' - y' * t;
      calc {
        x * p + y * q;
        y' * p + x' * q - y' * t * q;
        x' * q + y' * (p - t * q);
        Euclid(p, q);
      }
    }
  }

  /**
   * Euclid's loop: the remainder replaces the first operand, the two are
   * swapped, and this repeats until the second one is zero.
   */
  method Gcd(p: nat, q: nat) returns (g: nat)
    ensures g == Euclid(p, q)
    ensures IsGcd(g, p, q)
    ensures q == 0 ==> g == p
  {
    var a, b := p, q;
    while b != 0
      invariant Euclid(a, b) == Euclid(p, q)
      decreases b
    {
      a := a % b;
      a, b := b, a;
    }
    g := a;
    EuclidIsGcd(p, q);
  }

  /** A positive factor scales a positive number up, and a negative one down. */
  lemma MulSign(g: int, z: int)
    requires g > 0
    ensures z >= 1 ==> g * z >= g
    ensures z <= -1 ==> g * z <= -g
    ensures z >= 0 ==> g * z >= z
  {
  }

  /** A positive factor cancels from both sides of an equation. */
  lemma MulCancel(g: int, x: int, y: int)
    requires g > 0 && g * x == g * y
    ensures x == y
  {
  }

  /** Dividing an exact multiple by a positive factor gives back the other factor. */
  lemma DivExact(g: int, t: int)
    requires g > 0
    ensures g * t / g == t
  {
    var n := g * t;
    var d, m := n / g, n % g;
    assert n == g * d + m && 0 <= m < g;
    assert g * (t - d) == m;
    MulSign(g, t - d);
  }

  /** The gcd divides the product exactly, and the quotient is no larger than the product. */
  lemma GcdDividesProduct(p: nat, q: nat)
    requires p != 0 || q != 0
    ensures (p * q / Euclid(p, q)) * Euclid(p, q) == p * q
    ensures 0 <= p * q / Euclid(p, q) <= p * q
  {
    EuclidIsGcd(p, q);
    var g := Euclid(p, q);
    var k :| p == g * k;
    assert k >= 0 by {
      if k < 0 {
        MulSign(g, k);
      }
    }
    var t := k * q;
    assert t >= 0;
    assert p * q == g * t by {
      MulAssoc(g, k, q);
    }
    DivExact(g, t);
    MulSign(g, t);
  }

  /**
   * Product divided by the gcd, for non-negative operands. The product must
   * fit in an i64 (otherwise the source panics with overflow checks on and
   * wraps without them) and the gcd must not be zero (a division by zero).
   */
  function Lcm(p: nat, q: nat): (r: nat)
    requires p != 0 || q != 0
    requires p * q <= MaxI64
    ensures r * Euclid(p, q) == p * q
    ensures r <= MaxI64
  {
    GcdDividesProduct(p, q);
    p * q / Euclid(p, q)
  }

  /** The lcm is a common multiple of both operands. */
  lemma LcmIsCommonMultiple(p: nat, q: nat)
    requires p != 0 || q != 0
    requires p * q <= MaxI64
    ensures Divides(p, Lcm(p, q)) && Divides(q, Lcm(p, q))
  {
    EuclidIsGcd(p, q);
    var g, r := Euclid(p, q), Lcm(p, q);
    var i :| p == g * i;
    var j :| q == g * j;
    assert g * (r - i * q) == 0 by {
      assert r * g == g * i * q;
    }
    assert r == q * i;
    assert g * (r - p * j) == 0 by {
      assert r * g == p * (g * j);
    }
    assert r == p * j;
  }

  /** Regrouping a product of three factors. */
  lemma MulAssoc(a: int, b: int, c: int)
    ensures (a * b) * c == a * (b * c)
  {
  }

  /** The arithmetic core of `LcmIsLeast`, over plain integers. */
  lemma CommonMultipleTimesGcd(m: int, g: int, p: int, q: int, r: int, x: int, y: int, a: int, b: int)
    requires x * p + y * q == g && m == p * a && m == q * b && r * g == p * q
    ensures m * g == g * (r * (x * b + y * a))
  {
  }

  /** Every common multiple of `p` and `q` is a multiple of their lcm. */
  lemma LcmIsLeast(p: nat, q: nat, m: int)
    requires p != 0 || q != 0
    requires p * q <= MaxI64
    requires Divides(p, m) && Divides(q, m)
    ensures Divides(Lcm(p, q), m)
  {
    var g, r := Euclid(p, q), Lcm(p, q);
    var x, y := Bezout(p, q);
    var a :| m == p * a;
    var b :| m == q * b;
    CommonMultipleTimesGcd(m, g, p, q, r, x, y, a, b);
    MulCancel(g, m, r * (x * b + y * a));
  }

  /** The values the source's unit tests expect of `gcd`. */
  lemma GcdExamples()
    ensures Euclid(1, 2) == 1 && Euclid(2, 2) == 2 && Euclid(10, 19) == 1
    ensures Euclid(10, 18) == 2 && Euclid(10, 15) == 5 && Euclid(10, 20) == 10
  {
  }

  /** The values the source's unit tests expect of `lcm`. */
  lemma LcmExamples()
    ensures Lcm(1, 2) == 2 && Lcm(2, 2) == 2 && Lcm(10, 19) == 190
    ensures Lcm(10, 18) == 90 && Lcm(10, 15) == 30 && Lcm(10, 20) == 20
  {
  }
}
