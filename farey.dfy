/** The Farey (Stern–Brocot) mediant search behind `farey` and `closest_rational`.

    The search keeps a lower bound a/b and an upper bound c/d, starting from 0/1
    and 1/1, and repeatedly looks at their mediant (a+c)/(b+d). The two source
    copies differ only in how they decide that x "is" the mediant: one compares
    with `almost_equal` (a tolerance of one unit in the last place), the other
    with exact `==`. The search here takes that test as a parameter `matches`;
    `Exact` is exact equality. The mediant is the exact quotient, not a double. */
module Farey {
  import opened Fractions

  /** The largest denominator `closest_rational` allows. */
  const MaxDenom := 200

  /** The exact-equality test of one source copy: x matches the mediant only
      when their distance is zero. */
  function Exact(x: real, y: real): (b: bool)
    ensures b <==> Dist(x, y) == 0.0
  {
    x == y
  }

  /** The four integers of the search: lower bound a/b, upper bound c/d. */
  datatype Bracket = Bracket(a: int, b: int, c: int, d: int)

  const Start := Bracket(0, 1, 1, 1)

  /** The bounds as integers: 0 <= a < b and 1 <= c <= d, so 0 <= a/b < 1 and 0 < c/d <= 1. */
  predicate Ordered(s: Bracket)
  {
    0 <= s.a < s.b && 1 <= s.c <= s.d
  }

  /** What every bracket of the search satisfies: 0 <= a/b < c/d <= 1, neighbours. */
  predicate Adjacent(s: Bracket)
  {
    Ordered(s) && Neighbours(s.a, s.b, s.c, s.d)
  }

  function Lower(s: Bracket): Ratio
    requires s.b >= 1
  {
    Fraction(s.a, s.b)
  }

  function Upper(s: Bracket): Ratio
    requires s.d >= 1
  {
    Fraction(s.c, s.d)
  }

  function Mediant(s: Bracket): Ratio
    requires s.b >= 1 && s.d >= 1
  {
    Fraction(s.a + s.c, s.b + s.d)
  }

  /** x lies between the two bounds. */
  predicate Encloses(s: Bracket, x: real)
    requires s.b >= 1 && s.d >= 1
  {
    Value(Lower(s)) <= x <= Value(Upper(s))
  }

  /** x is above the mediant: the lower bound moves up to it. */
  function RaiseLower(s: Bracket): Bracket
  {
    Bracket(s.a + s.c, s.b + s.d, s.c, s.d)
  }

  /** x is below the mediant: the upper bound moves down to it. */
  function DropUpper(s: Bracket): Bracket
  {
    Bracket(s.a, s.b, s.c + s.a, s.d + s.b)
  }

  /** The step the loop takes when x is not the mediant: above it, the lower
      bound moves up; otherwise the upper bound moves down. */
  function Next(x: real, s: Bracket): Bracket
    requires s.b >= 1 && s.d >= 1
  {
    if x > Value(Mediant(s)) then RaiseLower(s) else DropUpper(s)
  }

  /** Where the loop stops: at a mediant that matches x, or because a
      denominator went past the bound. */
  datatype Stop = Matched(at: Bracket) | Exhausted(at: Bracket)

  /** The loop of `farey`, one iteration per call. Each iteration adds one
      denominator to the other, so the denominators only grow. */
  function Search(x: real, maxDenom: int, matches: (real, real) -> bool, s: Bracket): (stop: Stop)
    requires s.b >= 1 && s.d >= 1
    ensures stop.at.b >= s.b && stop.at.d >= s.d
    ensures stop.Exhausted? ==> stop.at.b > maxDenom || stop.at.d > maxDenom
    decreases 2 * maxDenom - s.b - s.d
  {
    if s.b <= maxDenom && s.d <= maxDenom then
      if matches(x, Value(Mediant(s))) then Matched(s)
      else Search(x, maxDenom, matches, Next(x, s))
    else
      Exhausted(s)
  }

  /** What `farey` returns where the loop stops. */
  function Answer(stop: Stop, maxDenom: int): Ratio
    requires stop.at.b >= 1 && stop.at.d >= 1
  {
    var s := stop.at;
    match stop
    case Matched(_) =>
      if s.b + s.d <= maxDenom then Mediant(s)
      else if s.d > s.b then Upper(s)
      else Lower(s)
    case Exhausted(_) =>
      if s.b > maxDenom then Upper(s) else Lower(s)
  }

  /** The value `farey(x, maxDenom)` returns, as a function. */
  function FareyResult(x: real, maxDenom: int, matches: (real, real) -> bool): Ratio
  {
    Answer(Search(x, maxDenom, matches, Start), maxDenom)
  }

  // The search's iterations, one fact each, for the loop of `Farey`.

  lemma SearchMatches(x: real, maxDenom: int, matches: (real, real) -> bool, s: Bracket)
    requires 1 <= s.b <= maxDenom && 1 <= s.d <= maxDenom && matches(x, Value(Mediant(s)))
    ensures Search(x, maxDenom, matches, s) == Matched(s)
  {
  }

  lemma SearchAdvances(x: real, maxDenom: int, matches: (real, real) -> bool, s: Bracket)
    requires 1 <= s.b <= maxDenom && 1 <= s.d <= maxDenom && !matches(x, Value(Mediant(s)))
    ensures Search(x, maxDenom, matches, s) == Search(x, maxDenom, matches, Next(x, s))
  {
  }

  lemma SearchEnds(x: real, maxDenom: int, matches: (real, real) -> bool, s: Bracket)
    requires s.b >= 1 && s.d >= 1 && (s.b > maxDenom || s.d > maxDenom)
    ensures Search(x, maxDenom, matches, s) == Exhausted(s)
  {
  }

  /** Models `farey`: the while loop over a, b, c, d (held in one `Bracket`) with
      its early returns. It computes exactly the fraction the search defines;
      `FareyBounds`, `FareyEncloses` and `FareyChoice` say what that fraction is. */
  method Farey(x: real, maxDenom: int, matches: (real, real) -> bool) returns (r: Ratio)
    ensures r == FareyResult(x, maxDenom, matches)
  {
    var s := Start;
    ghost var stop := Search(x, maxDenom, matches, s);
    while s.b <= maxDenom && s.d <= maxDenom
      invariant s.b >= 1 && s.d >= 1
      invariant Search(x, maxDenom, matches, s) == stop
      decreases 2 * maxDenom - s.b - s.d
    {
      var mediant := (s.a + s.c) as real / (s.b + s.d) as real;
      assert mediant == Value(Mediant(s));
      if matches(x, mediant) {
        SearchMatches(x, maxDenom, matches, s);
        if s.b + s.d <= maxDenom {
          return Fraction(s.a + s.c, s.b + s.d);
        } else if s.d > s.b {
          return Fraction(s.c, s.d);
        } else {
          return Fraction(s.a, s.b);
        }
      } else if x > mediant {
        SearchAdvances(x, maxDenom, matches, s);
        s := Bracket(s.a + s.c, s.b + s.d, s.c, s.d);
      } else {
        SearchAdvances(x, maxDenom, matches, s);
        s := Bracket(s.a, s.b, s.c + s.a, s.d + s.b);
      }
    }
    SearchEnds(x, maxDenom, matches, s);
    if s.b > maxDenom {
      r := Fraction(s.c, s.d);
    } else {
      r := Fraction(s.a, s.b);
    }
  }

  lemma MediantBetween(s: Bracket)
    requires Adjacent(s)
    ensures Value(Lower(s)) < Value(Mediant(s)) < Value(Upper(s))
  {
    ValCompare(s.a, s.b, s.a + s.c, s.b + s.d);
    ValCompare(s.a + s.c, s.b + s.d, s.c, s.d);
    assert s.a * (s.b + s.d) < (s.a + s.c) * s.b;
    assert (s.a + s.c) * s.d < s.c * (s.b + s.d);
  }

  lemma StepsStayAdjacent(s: Bracket)
    requires Adjacent(s)
    ensures Adjacent(RaiseLower(s)) && Adjacent(DropUpper(s))
  {
    assert (s.b + s.d) * s.c - (s.a + s.c) * s.d == s.b * s.c - s.a * s.d;
    assert s.b * (s.c + s.a) - s.a * (s.d + s.b) == s.b * s.c - s.a * s.d;
  }

  /** The loop invariants of `farey` on the integers, for any `matches`: both
      bounds stay in [0, 1]; a match stops the loop with both denominators in
      bound; and on exhaustion exactly one denominator is out of bound when both
      started in bound. */
  lemma {:induction false} SearchShape(x: real, maxDenom: int, matches: (real, real) -> bool, s: Bracket)
    requires Ordered(s)
    ensures var stop := Search(x, maxDenom, matches, s);
            && Ordered(stop.at)
            && (stop.Matched? ==> matches(x, Value(Mediant(stop.at))) && stop.at.b <= maxDenom && stop.at.d <= maxDenom)
            && (stop.Exhausted? && s.b <= maxDenom && s.d <= maxDenom ==> stop.at.b <= maxDenom || stop.at.d <= maxDenom)
    decreases 2 * maxDenom - s.b - s.d
  {
    if s.b <= maxDenom && s.d <= maxDenom && !matches(x, Value(Mediant(s))) {
      SearchShape(x, maxDenom, matches, Next(x, s));
    }
  }

  /** The loop invariants of `farey` on the values: the bracket stays a pair of
      neighbours, and it keeps enclosing x. */
  lemma {:induction false} SearchInvariant(x: real, maxDenom: int, matches: (real, real) -> bool, s: Bracket)
    requires Adjacent(s)
    ensures var stop := Search(x, maxDenom, matches, s);
            Adjacent(stop.at) && (Encloses(s, x) ==> Encloses(stop.at, x))
    decreases 2 * maxDenom - s.b - s.d
  {
    if s.b <= maxDenom && s.d <= maxDenom && !matches(x, Value(Mediant(s))) {
      StepsStayAdjacent(s);
      MediantBetween(s);
      SearchInvariant(x, maxDenom, matches, Next(x, s));
    }
  }

  /** `farey` returns a fraction in [0, 1], and with a bound of at least 1 its
      denominator is within the bound. */
  lemma FareyBounds(x: real, maxDenom: int, matches: (real, real) -> bool)
    ensures var r := FareyResult(x, maxDenom, matches);
            0 <= r.num <= r.den && (maxDenom >= 1 ==> r.den <= maxDenom)
  {
    SearchShape(x, maxDenom, matches, Start);
  }

  /** As a value, `farey`'s result lies in [0, 1]. */
  lemma FareyInUnit(x: real, maxDenom: int, matches: (real, real) -> bool)
    requires maxDenom >= 1
    ensures var r := FareyResult(x, maxDenom, matches);
            1 <= r.den <= maxDenom && 0.0 <= Value(r) <= 1.0
  {
    FareyBounds(x, maxDenom, matches);
    var r := FareyResult(x, maxDenom, matches);
    UnitFraction(r.num, r.den);
  }

  lemma UnitFraction(p: int, q: int)
    requires 0 <= p <= q && q >= 1
    ensures 0.0 <= Val(p, q) <= 1.0
  {
    ValCompare(0, 1, p, q);
    ValCompare(p, q, 1, 1);
  }

  /** For x in [0, 1] the search ends on a pair of neighbours a/b <= x <= c/d. */
  lemma FareyEncloses(x: real, maxDenom: int, matches: (real, real) -> bool)
    requires 0.0 <= x <= 1.0
    ensures var t := Search(x, maxDenom, matches, Start).at;
            Adjacent(t) && Value(Lower(t)) <= x <= Value(Upper(t))
  {
    assert Value(Lower(Start)) == 0.0 && Value(Upper(Start)) == 1.0;
    SearchInvariant(x, maxDenom, matches, Start);
  }

  /** Which fraction `farey` picks. On a match it picks, among the mediant and the
      two bounds, the one with the largest denominator within the bound (the
      mediant if it fits). Without a match it picks the bound whose denominator
      is within the bound, the other being past it. */
  lemma FareyChoice(x: real, maxDenom: int, matches: (real, real) -> bool)
    requires maxDenom >= 1
    ensures var stop := Search(x, maxDenom, matches, Start);
            var t, r := stop.at, FareyResult(x, maxDenom, matches);
            && r.den <= maxDenom
            && (stop.Matched? ==>
                  && matches(x, Value(Mediant(t)))
                  && (r == Mediant(t) || r == Lower(t) || r == Upper(t))
                  && (Mediant(t).den <= maxDenom ==> r == Mediant(t))
                  && Lower(t).den <= r.den && Upper(t).den <= r.den)
            && (stop.Exhausted? ==>
                  || (r == Lower(t) && Upper(t).den > maxDenom)
                  || (r == Upper(t) && Lower(t).den > maxDenom))
  {
    SearchShape(x, maxDenom, matches, Start);
  }

  /** An exact match at the mediant of neighbours: the mediant fits the bound. */
  lemma ExactMatchFits(p: int, q: int, maxDenom: int, s: Bracket)
    requires 1 <= q <= maxDenom && Adjacent(s)
    requires Val(p, q) == Value(Mediant(s))
    ensures Value(Answer(Matched(s), maxDenom)) == Val(p, q)
  {
    MediantBetween(s);
    BetweenNeighbours(s.a, s.b, s.c, s.d, p, q);
  }

  /** A fraction within the bound cannot be strictly inside an exhausted bracket,
      so it is one of its ends. */
  lemma ExactExhaustedAtEnd(p: int, q: int, maxDenom: int, s: Bracket)
    requires 1 <= q <= maxDenom && Tracks(Val(p, q), s) && (s.b > maxDenom || s.d > maxDenom)
    ensures Value(Answer(Exhausted(s), maxDenom)) == Val(p, q)
  {
    var x := Val(p, q);
    if Value(Lower(s)) < x < Value(Upper(s)) {
      BetweenNeighbours(s.a, s.b, s.c, s.d, p, q);
    }
  }

  /** What the exact search keeps about a fraction x it has not reached yet:
      x is in the bracket, and x is an end only if that end is where it started. */
  predicate Tracks(x: real, s: Bracket)
  {
    && Adjacent(s)
    && Encloses(s, x)
    && (x == Value(Lower(s)) ==> s.a == 0 && s.b == 1)
    && (x == Value(Upper(s)) ==> s.c == 1 && s.d == 1)
  }

  lemma ExactStepTracks(x: real, s: Bracket)
    requires Tracks(x, s) && x != Value(Mediant(s))
    ensures Tracks(x, Next(x, s))
  {
    MediantBetween(s);
    StepsStayAdjacent(s);
    assert Lower(RaiseLower(s)) == Mediant(s) && Upper(RaiseLower(s)) == Upper(s);
    assert Lower(DropUpper(s)) == Lower(s) && Upper(DropUpper(s)) == Mediant(s);
  }

  /** With exact equality the search finds every fraction p/q in [0, 1] whose
      denominator is within the bound: it returns p/q itself (by value). */
  lemma {:induction false} ExactSearchHits(p: int, q: int, maxDenom: int, s: Bracket)
    requires 1 <= q <= maxDenom && Tracks(Val(p, q), s)
    ensures Value(Answer(Search(Val(p, q), maxDenom, Exact, s), maxDenom)) == Val(p, q)
    decreases 2 * maxDenom - s.b - s.d
  {
    var x := Val(p, q);
    var stop := Search(x, maxDenom, Exact, s);
    if s.b <= maxDenom && s.d <= maxDenom {
      if x == Value(Mediant(s)) {
        assert stop == Matched(s);
        ExactMatchFits(p, q, maxDenom, s);
      } else {
        assert stop == Search(x, maxDenom, Exact, Next(x, s));
        ExactStepTracks(x, s);
        ExactSearchHits(p, q, maxDenom, Next(x, s));
      }
    } else {
      assert stop == Exhausted(s);
      ExactExhaustedAtEnd(p, q, maxDenom, s);
    }
  }

  lemma FareyFindsSmallFractions(p: int, q: int, maxDenom: int)
    requires 0 <= p <= q && 1 <= q <= maxDenom
    ensures Value(FareyResult(Val(p, q), maxDenom, Exact)) == Val(p, q)
  {
    ValCompare(0, 1, p, q);
    ValCompare(p, q, 1, 1);
    ExactSearchHits(p, q, maxDenom, Start);
  }

  /** C++ `std::trunc` followed by a cast to int: rounds toward zero. */
  function Trunc(x: real): (i: int)
    ensures x >= 0.0 ==> 0.0 <= x - i as real < 1.0
    ensures x < 0.0 ==> -1.0 < x - i as real <= 0.0
  {
    if x >= 0.0 then x.Floor else -((-x).Floor)
  }

  /** What `closest_rational` hands to `farey`: x minus its truncated integral
      part, in [0, 1) for a non-negative x. */
  function FractionalPart(x: real): (y: real)
    ensures x >= 0.0 ==> 0.0 <= y < 1.0
    ensures x < 0.0 ==> -1.0 < y <= 0.0
    ensures y + Trunc(x) as real == x
  {
    x - Trunc(x) as real
  }

  /** Models `closest_rational`: the integral part plus `farey` of the fractional
      part with denominator bound 200. The result has a denominator of at most 200
      and lies between the integral part and the next integer. */
  function ClosestRational(x: real, matches: (real, real) -> bool): (r: Ratio)
    ensures 1 <= r.den <= MaxDenom
    ensures Trunc(x) as real <= Value(r) <= Trunc(x) as real + 1.0
  {
    var f := FareyResult(FractionalPart(x), MaxDenom, matches);
    FareyInUnit(FractionalPart(x), MaxDenom, matches);
    ShiftedUnit(Trunc(x), f);
    AddInt(Trunc(x), f)
  }

  lemma ShiftedUnit(i: int, f: Ratio)
    requires 1 <= f.den <= MaxDenom && 0.0 <= Value(f) <= 1.0
    ensures var r := AddInt(i, f);
            1 <= r.den <= MaxDenom && i as real <= Value(r) <= i as real + 1.0
  {
  }

  /** With exact equality, `closest_rational` of a non-negative p/q with q <= 200
      is p/q exactly. */
  lemma ClosestRationalFindsSmallFractions(p: int, q: int)
    requires 0 <= p && 1 <= q <= MaxDenom
    ensures Value(ClosestRational(Val(p, q), Exact)) == Val(p, q)
  {
    var x, rest := Val(p, q), p % q;
    SplitFraction(p, q);
    FareyFindsSmallFractions(rest, q, MaxDenom);
    assert FractionalPart(x) == Val(rest, q);
  }

  /** p/q is its integral part p / q plus (p % q)/q, a value in [0, 1). */
  lemma SplitFraction(p: int, q: int)
    requires 0 <= p && q >= 1
    ensures Trunc(Val(p, q)) == p / q && FractionalPart(Val(p, q)) == Val(p % q, q)
    ensures 0 <= p % q < q
  {
    var x := Val(p, q);
    var i, rest := p / q, p % q;
    assert p == q * i + rest && 0 <= rest < q;
    assert x == i as real + Val(rest, q) by {
      assert x * q as real == p as real;
      assert (i as real + Val(rest, q)) * q as real == (q * i) as real + rest as real;
    }
    ValCompare(0, 1, rest, q);
    ValCompare(rest, q, 1, 1);
    assert Trunc(x) == i;
  }

  // ---------------------------------------------------------------------------
  // The search does not always return the closest fraction.

  /** Below 1/(maxDenom+1) the exact search only ever drops the upper bound
      1/k, and ends with 0/1 and 1/(maxDenom+1). */
  lemma {:induction false} ExactSearchSlidesDown(x: real, maxDenom: int, k: int)
    requires 1 <= k <= maxDenom && 0.0 < x < Val(1, maxDenom + 1)
    ensures Search(x, maxDenom, Exact, Bracket(0, 1, 1, k)) == Exhausted(Bracket(0, 1, 1, maxDenom + 1))
    decreases maxDenom - k
  {
    var s := Bracket(0, 1, 1, k);
    ValCompare(1, maxDenom + 1, 1, k + 1);
    assert Value(Mediant(s)) == Val(1, k + 1);
    assert Search(x, maxDenom, Exact, s) == Search(x, maxDenom, Exact, Bracket(0, 1, 1, k + 1));
    if k < maxDenom {
      ExactSearchSlidesDown(x, maxDenom, k + 1);
    }
  }

  /** `closest_rational(1.004)` with the exact test returns 1/1, although 201/200
      (a denominator within the bound) is closer: the search returns the bound
      that fits rather than the closest fraction. */
  lemma ClosestRationalMissesCloser()
    ensures ClosestRational(1.004, Exact) == Fraction(1, 1)
    ensures Dist(1.004, Val(201, 200)) < Dist(1.004, Value(ClosestRational(1.004, Exact)))
  {
    assert Trunc(1.004) == 1;
    assert FractionalPart(1.004) == 0.004;
    assert Val(1, 250) == 0.004;
    ValCompare(1, 250, 1, MaxDenom + 1);
    ExactSearchSlidesDown(0.004, MaxDenom, 1);
    assert FareyResult(0.004, MaxDenom, Exact) == Fraction(0, 1);
    assert AddInt(1, Fraction(0, 1)) == Fraction(1, 1);
    assert Value(Fraction(1, 1)) == 1.0;
    assert Val(201, 200) == 1.005;
  }

  /** Of the two bounds, the one closer to x (the lower one on a tie). */
  function CloserEnd(x: real, s: Bracket): (r: Ratio)
    requires s.b >= 1 && s.d >= 1
    ensures r == Lower(s) || r == Upper(s)
    ensures Dist(x, Value(r)) <= Dist(x, Value(Lower(s))) && Dist(x, Value(r)) <= Dist(x, Value(Upper(s)))
  {
    if Dist(x, Value(Lower(s))) <= Dist(x, Value(Upper(s))) then Lower(s) else Upper(s)
  }

  /** Once the next mediant is past the bound, the closer of two neighbours
      around x is at least as close as any fraction p/q with q within the bound. */
  lemma CloserEndIsBest(x: real, maxDenom: int, s: Bracket, p: int, q: int)
    requires Adjacent(s) && Encloses(s, x) && s.b + s.d > maxDenom && 1 <= q <= maxDenom
    ensures Dist(x, Value(CloserEnd(x, s))) <= Dist(x, Val(p, q))
  {
    if Value(Lower(s)) < Val(p, q) < Value(Upper(s)) {
      BetweenNeighbours(s.a, s.b, s.c, s.d, p, q);
    }
  }

  /** The search as its source comment describes it, "closest rational": it stops
      as soon as the next mediant would be past the bound, when a/b and c/d are
      neighbours in the Farey sequence of that order, and returns the closer of the
      two. The result is at least as close to x as any fraction whose denominator
      is within the bound. */
  method FareyClosest(x: real, maxDenom: int) returns (r: Ratio)
    requires 0.0 <= x <= 1.0 && maxDenom >= 1
    ensures 1 <= r.den <= maxDenom
    ensures forall p, q :: 1 <= q <= maxDenom ==> Dist(x, Value(r)) <= Dist(x, Val(p, q))
  {
    var s := Start;
    assert Value(Lower(s)) == 0.0 && Value(Upper(s)) == 1.0;
    while s.b + s.d <= maxDenom
      invariant Adjacent(s) && s.b <= maxDenom && s.d <= maxDenom
      invariant Encloses(s, x)
      decreases maxDenom - s.b - s.d
    {
      StepsStayAdjacent(s);
      var mediant := Value(Mediant(s));
      if x == mediant {
        return Mediant(s);
      } else if x > mediant {
        s := RaiseLower(s);
      } else {
        s := DropUpper(s);
      }
    }
    r := CloserEnd(x, s);
    forall p, q | 1 <= q <= maxDenom
      ensures Dist(x, Value(r)) <= Dist(x, Val(p, q))
    {
      CloserEndIsBest(x, maxDenom, s, p, q);
    }
  }

  /** `closest_rational` with the corrected search for the fractional part: for
      a non-negative x (every ratio of an interval is positive) the result has a
      denominator of at most 200 and is at least as close to x as every fraction
      whose denominator is at most 200. */
  method ClosestRationalBest(x: real) returns (r: Ratio)
    requires x >= 0.0
    ensures 1 <= r.den <= MaxDenom
    ensures forall p, q :: 1 <= q <= MaxDenom ==> Dist(x, Value(r)) <= Dist(x, Val(p, q))
  {
    var i := Trunc(x);
    var f := FareyClosest(x - i as real, MaxDenom);
    r := AddInt(i, f);
    forall p, q | 1 <= q <= MaxDenom
      ensures Dist(x, Value(r)) <= Dist(x, Val(p, q))
    {
      var s := AddInt(-i, Fraction(p, q));
      assert Dist(x - i as real, Value(f)) <= Dist(x - i as real, Val(s.num, s.den));
    }
  }
}
