/** Exact ratios, standing in for `boost::rational<int>`: an integer pair with a
    positive denominator, compared by value. Reduction to lowest terms is not
    modelled; two ratios are the same interval when their values are equal. */
module Fractions {

  datatype Fraction = Fraction(num: int, den: int)

  /** A ratio keeps its sign on the numerator. */
  type Ratio = f: Fraction | f.den > 0 witness Fraction(0, 1)

  /** The value n/d of a pair with positive denominator. */
  function Val(n: int, d: int): real
    requires d > 0
  {
    n as real / d as real
  }

  function Value(r: Ratio): real
  {
    Val(r.num, r.den)
  }

  /** Distance between two reals. */
  function Dist(x: real, y: real): real
  {
    if x <= y then y - x else x - y
  }

  /** Comparing two values is comparing the cross products. */
  lemma ValCompare(a: int, b: int, p: int, q: int)
    requires b > 0 && q > 0
    ensures Val(a, b) < Val(p, q) <==> a * q < p * b
    ensures Val(a, b) == Val(p, q) <==> a * q == p * b
  {
    var x, y := Val(a, b), Val(p, q);
    assert x * b as real == a as real;
    assert y * q as real == p as real;
    var bq := (b * q) as real;
    assert bq > 0.0;
    assert x * bq == (a * q) as real by {
      assert x * bq == (x * b as real) * q as real;
    }
    assert y * bq == (p * b) as real by {
      assert y * bq == (y * q as real) * b as real;
    }
    assert x < y <==> x * bq < y * bq;
    assert x == y <==> x * bq == y * bq;
  }

  /** `integer + rational` of boost: the sum keeps the denominator. */
  function AddInt(i: int, r: Ratio): (s: Ratio)
    ensures Value(s) == i as real + Value(r)
    ensures s.den == r.den
  {
    var s := Fraction(i * r.den + r.num, r.den);
    assert Value(s) == i as real + Value(r) by {
      var d := r.den as real;
      assert Value(s) * d == (i * r.den + r.num) as real;
      assert (i as real + Value(r)) * d == i as real * d + r.num as real;
    }
    s
  }

  /** Two pairs are neighbours in the Stern–Brocot sense when b*c - a*d == 1. */
  predicate Neighbours(a: int, b: int, c: int, d: int)
  {
    b >= 1 && d >= 1 && b * c - a * d == 1
  }

  /** The key fact about neighbours a/b < c/d: any fraction strictly between them
      has a denominator of at least b + d. */
  lemma BetweenNeighbours(a: int, b: int, c: int, d: int, p: int, q: int)
    requires Neighbours(a, b, c, d) && q >= 1
    requires Val(a, b) < Val(p, q) < Val(c, d)
    ensures q >= b + d
  {
    ValCompare(a, b, p, q);
    ValCompare(p, q, c, d);
    var lo, hi := p * b - a * q, c * q - p * d;
    assert lo >= 1 && hi >= 1;
    assert q == q * (b * c - a * d);
    assert q * (b * c - a * d) == b * hi + d * lo;
    assert b * hi >= b by { assert b * hi == b + b * (hi - 1); }
    assert d * lo >= d by { assert d * lo == d + d * (lo - 1); }
  }

  // Real arithmetic in small steps: the solver handles each on its own.

  lemma ToRealMul(a: int, b: int)
    ensures (a * b) as real == a as real * b as real
  {
  }

  lemma RealCancel(x: real, y: real, z: real)
    requires z != 0.0 && x * z == y * z
    ensures x == y
  {
    var e := (x - y) * z;
    assert e == x * z - y * z;
  }

  lemma RealScaleNum(n: real, d: real, p: real)
    requires d > 0.0
    ensures (n * p) / d == (n / d) * p
  {
    var v, w := n / d, (n * p) / d;
    assert v * d == n;
    assert w * d == n * p;
    assert (v * p) * d == (v * d) * p;
    RealCancel(w, v * p, d);
  }

  lemma RealScaleDen(n: real, d: real, p: real)
    requires d > 0.0 && p > 0.0
    ensures n / (d * p) == (n / d) * (1.0 / p)
  {
    var v, w, u, dp := n / d, 1.0 / p, n / (d * p), d * p;
    assert v * d == n;
    assert w * p == 1.0;
    assert u * dp == n;
    assert (v * w) * dp == (v * d) * (w * p);
    RealCancel(u, v * w, dp);
  }

  /** Multiplying the numerator by p multiplies the value by p. */
  lemma ValScaleNum(n: int, d: int, p: int)
    requires d > 0
    ensures Val(n * p, d) == Val(n, d) * p as real
  {
    ToRealMul(n, p);
    RealScaleNum(n as real, d as real, p as real);
  }

  /** Multiplying the denominator by p > 0 divides the value by p. */
  lemma ValScaleDen(n: int, d: int, p: int)
    requires d > 0 && p > 0
    ensures Val(n, d * p) == Val(n, d) * (1.0 / p as real)
  {
    ToRealMul(d, p);
    RealScaleDen(n as real, d as real, p as real);
  }

  /** The three identities between a, b and their inverses that powers of two need. */
  lemma RealInverses(a: real, b: real)
    requires a > 0.0 && b > 0.0
    ensures (a * b) * (1.0 / b) == a
    ensures 1.0 / (a * b) == (1.0 / a) * (1.0 / b)
    ensures a * (1.0 / (a * b)) == 1.0 / b
  {
    var ia, ib, iab, ab := 1.0 / a, 1.0 / b, 1.0 / (a * b), a * b;
    assert ib * b == 1.0;
    assert ia * a == 1.0;
    assert iab * ab == 1.0;
    assert ab * ib == a * (b * ib);
    assert (ia * ib) * ab == (ia * a) * (ib * b);
    RealCancel(iab, ia * ib, ab);
    assert (a * iab) * b == iab * ab;
    RealCancel(a * iab, ib, b);
  }
}
