/** Integer helpers of the tuning core: the square-and-multiply power `powi`,
    C++ truncating division, and `euclidean_remainder`. Integers are unbounded:
    the 32-bit `int` overflow of the source is not modelled. */
module IntMath {

  function Abs(x: int): (r: nat)
    ensures r == x || r == -x
  {
    if x < 0 then -x else x
  }

  /** base^exp, the reference for `powi`. */
  function Pow(base: int, exp: nat): (r: int)
    ensures base > 0 ==> r > 0
    ensures base == 0 && exp > 0 ==> r == 0
  {
    if exp == 0 then 1 else base * Pow(base, exp - 1)
  }

  lemma {:induction false} PowAdd(base: int, m: nat, n: nat)
    ensures Pow(base, m + n) == Pow(base, m) * Pow(base, n)
  {
    if m > 0 {
      PowAdd(base, m - 1, n);
      var x, y := Pow(base, m - 1), Pow(base, n);
      assert Pow(base, m + n) == base * (x * y);
      MulAssoc(base, x, y);
    }
  }

  lemma MulAssoc(a: int, b: int, c: int)
    ensures a * (b * c) == (a * b) * c
  {
  }

  lemma {:induction false} PowSquare(base: int, n: nat)
    ensures Pow(base * base, n) == Pow(base, 2 * n)
  {
    if n > 0 {
      PowSquare(base, n - 1);
      var p := Pow(base, 2 * n - 2);
      assert Pow(base * base, n) == (base * base) * p;
      assert Pow(base, 2 * n - 1) == base * p;
      assert Pow(base, 2 * n) == base * (base * p);
      MulAssoc(base, base, p);
    }
  }

  /** One square-and-multiply step: base^e is (base if e is odd, else 1) times
      (base * base)^(e / 2). */
  lemma PowHalve(base: int, e: nat)
    ensures Pow(base, e) == (if e % 2 == 1 then base else 1) * Pow(base * base, e / 2)
  {
    PowSquare(base, e / 2);
    if e % 2 == 1 {
      assert Pow(base, e) == base * Pow(base, 2 * (e / 2));
    } else {
      assert e == 2 * (e / 2);
    }
  }

  /** Models `powi` (square and multiply over the bits of `exp`): the result is base^exp. */
  method Powi(base: int, exp: nat) returns (res: int)
    ensures res == Pow(base, exp)
  {
    res := 1;
    var b, e := base, exp;
    while e != 0
      invariant res * Pow(b, e) == Pow(base, exp)
      decreases e
    {
      var factor := if e % 2 == 1 then b else 1;
      PowHalve(b, e);
      MulAssoc(res, factor, Pow(b * b, e / 2));
      if e % 2 == 1 {
        res := res * b;
      }
      e := e / 2;
      b := b * b;
    }
  }

  /** C++ integer division: the algebraic quotient with its fractional part
      discarded, so |q| is |a| / |b| and q takes the sign of a * b. */
  function TruncDiv(a: int, b: int): (q: int)
    requires b != 0
    ensures Abs(q) == Abs(a) / Abs(b)
    ensures q < 0 ==> (a < 0) != (b < 0)
    ensures q > 0 ==> (a < 0) == (b < 0)
  {
    DivOfNatIsNat(Abs(a), Abs(b));
    var magnitude := Abs(a) / Abs(b);
    if (a < 0) == (b < 0) then magnitude else -magnitude
  }

  lemma DivOfNatIsNat(a: int, b: int)
    requires a >= 0 && b > 0
    ensures a / b >= 0
  {
  }

  /** b times the truncated quotient is |b| * (|a| / |b|), negated when a < 0. */
  lemma TruncDivTimes(a: int, b: int)
    requires b != 0
    ensures b * TruncDiv(a, b) == (if a < 0 then -(Abs(b) * (Abs(a) / Abs(b))) else Abs(b) * (Abs(a) / Abs(b)))
  {
    var B, Q := Abs(b), Abs(a) / Abs(b);
    MulNeg(B, Q);
  }

  lemma MulNeg(x: int, y: int)
    ensures (-x) * y == -(x * y) && x * (-y) == -(x * y) && (-x) * (-y) == x * y
  {
  }

  /** C++ `%`: the remainder that goes with `TruncDiv`. It is smaller than |b|
      and, unless zero, carries the sign of `a`. */
  function TruncRem(a: int, b: int): (r: int)
    requires b != 0
    ensures a == b * TruncDiv(a, b) + r
    ensures Abs(r) < Abs(b)
    ensures r == 0 || (r < 0 <==> a < 0)
  {
    var A, B := Abs(a), Abs(b);
    assert A == B * (A / B) + A % B;
    TruncDivTimes(a, b);
    if a < 0 then -(A % B) else A % B
  }

  lemma MulAtLeast(b: int, k: int)
    requires b > 0 && k >= 1
    ensures b * k >= b
  {
    assert b * k == b + b * (k - 1);
  }

  /** If a == b * q + r with 0 <= r < |b|, then r is Dafny's (Euclidean) a % b. */
  lemma EuclideanUnique(a: int, b: int, q: int, r: int)
    requires b != 0 && a == b * q + r && 0 <= r < Abs(b)
    ensures r == a % b
  {
    var q', r' := a / b, a % b;
    assert a == b * q' + r' && 0 <= r' < Abs(b);
    assert b * (q - q') == r' - r;
    if q > q' {
      MulAtLeast(Abs(b), q - q');
      assert false;
    } else if q < q' {
      MulAtLeast(Abs(b), q' - q);
      assert false;
    }
  }

  /** If a == b * q + r with 0 <= r < |b|, then q is Dafny's (Euclidean) a / b. */
  lemma DivUnique(a: int, b: int, q: int, r: int)
    requires b != 0 && a == b * q + r && 0 <= r < Abs(b)
    ensures q == a / b && r == a % b
  {
    EuclideanUnique(a, b, q, r);
    var q' := a / b;
    assert b * q == b * q';
    MulCancel(b, q, q');
  }

  lemma MulCancel(b: int, x: int, y: int)
    requires b != 0 && b * x == b * y
    ensures x == y
  {
    assert b * (x - y) == 0;
  }

  /** Models `euclidean_remainder`: the C++ remainder, moved into [0, |b|) when negative.
      It is the Euclidean remainder, so `a - r` is a multiple of `b`. */
  function EuclideanRemainder(a: int, b: int): (r: int)
    requires b != 0
    ensures 0 <= r < Abs(b)
    ensures r == a % b
  {
    var t := TruncRem(a, b);
    var r := if t >= 0 then t else t + Abs(b);
    assert r == a - b * (if t >= 0 then TruncDiv(a, b) else if b > 0 then TruncDiv(a, b) - 1 else TruncDiv(a, b) + 1);
    EuclideanUnique(a, b, if t >= 0 then TruncDiv(a, b) else if b > 0 then TruncDiv(a, b) - 1 else TruncDiv(a, b) + 1, r);
    r
  }
}
