/** `TuningInterval`: an immutable musical interval held as exactly one of two
    alternatives, cents (a logarithmic real) or an exact ratio. The cents value
    itself is treated as an opaque real; the floating-point conversions between
    the two forms (`std::pow`, `std::log2`) are passed in as functions. */
module Intervals {
  import opened Fractions
  import opened IntMath
  import Farey

  const CentsPerOctave := 1200

  /** The `std::variant<Cents, Ratio>` member; a datatype value never changes. */
  datatype TuningInterval = CentsInterval(cents: real) | RatioInterval(ratio: Ratio)

  /** The constructor `TuningInterval(numer, denom)`: the ratio numer/denom, with
      the sign moved to the numerator as `boost::rational` does. */
  function FromFraction(numer: int, denom: int): (i: TuningInterval)
    requires denom != 0
    ensures i.RatioInterval? && i.ratio.den == Abs(denom)
    ensures Value(i.ratio) * denom as real == numer as real
  {
    if denom > 0 then
      assert Val(numer, denom) * denom as real == numer as real;
      RatioInterval(Fraction(numer, denom))
    else
      assert Val(-numer, -denom) * (-denom) as real == (-numer) as real;
      RatioInterval(Fraction(-numer, -denom))
  }

  /** `cents()`: a cents interval gives its stored value unchanged; a ratio goes
      through `ratio_to_cents`, here the parameter `ratioToCents`. */
  function CentsOf(i: TuningInterval, ratioToCents: Ratio -> real): (c: real)
    ensures i.CentsInterval? ==> c == i.cents
    ensures i.RatioInterval? ==> c == ratioToCents(i.ratio)
  {
    match i
    case CentsInterval(c) => c
    case RatioInterval(r) => ratioToCents(r)
  }

  /** `ratio()`: a ratio interval gives its stored ratio unchanged (no rounding);
      a cents interval is approximated by `closest_rational` of
      `cents_to_ratio_as_double` (the parameter `centsToRatio`), so its
      denominator is at most 200. `matches` is the mediant test of the search. */
  function RatioOf(i: TuningInterval, centsToRatio: real -> real, matches: (real, real) -> bool): (r: Ratio)
    ensures i.RatioInterval? ==> r == i.ratio
    ensures i.CentsInterval? ==> r == Farey.ClosestRational(centsToRatio(i.cents), matches) && r.den <= Farey.MaxDenom
  {
    match i
    case CentsInterval(c) => Farey.ClosestRational(centsToRatio(c), matches)
    case RatioInterval(r) => r
  }

  /** v * 2^k for any integer k: v doubled k times, or halved -k times. */
  function TimesTwoTo(v: real, k: int): real
    decreases if k >= 0 then k else -k
  {
    if k == 0 then v else if k > 0 then 2.0 * TimesTwoTo(v, k - 1) else TimesTwoTo(v, k + 1) / 2.0
  }

  /** `add_octaves` (`transpose_octaves` in the other copy). It keeps the storage
      form: cents move by 1200 per octave; a ratio is multiplied by 2^k exactly,
      by scaling only the numerator for k > 0 and only the denominator for k < 0,
      and k = 0 gives the interval back unchanged. */
  function TransposeOctaves(i: TuningInterval, octaves: int): (r: TuningInterval)
    ensures r.CentsInterval? <==> i.CentsInterval?
    ensures i.CentsInterval? ==> r.cents == i.cents + (octaves * CentsPerOctave) as real
    ensures i.RatioInterval? ==> Value(r.ratio) == TimesTwoTo(Value(i.ratio), octaves)
    ensures octaves == 0 ==> r == i
    ensures i.RatioInterval? && octaves > 0 ==> r.ratio.den == i.ratio.den
    ensures i.RatioInterval? && octaves < 0 ==> r.ratio.num == i.ratio.num
  {
    match i
    case CentsInterval(c) =>
      CentsInterval(c + (octaves * CentsPerOctave) as real)
    case RatioInterval(q) =>
      RatioInterval(ScaleRatio(q, octaves))
  }

  /** The ratio branch of `add_octaves`: the numerator times `powi(2, k)` for
      k > 0, the denominator times `powi(2, -k)` for k < 0, the ratio itself for
      k = 0. Its value is the ratio's value times 2^k. */
  function ScaleRatio(q: Ratio, octaves: int): (s: Ratio)
    ensures Value(s) == TimesTwoTo(Value(q), octaves)
    ensures octaves == 0 ==> s == q
    ensures octaves > 0 ==> s.den == q.den
    ensures octaves < 0 ==> s.num == q.num
  {
    if octaves == 0 then
      q
    else if octaves > 0 then
      ValScaleNum(q.num, q.den, Pow(2, octaves));
      TimesPowTwo(Value(q), octaves);
      Fraction(q.num * Pow(2, octaves), q.den)
    else
      ValScaleDen(q.num, q.den, Pow(2, -octaves));
      DividedByPowTwo(Value(q), -octaves);
      Fraction(q.num, q.den * Pow(2, -octaves))
  }

  /** Two intervals are the same when they have the same form and the same
      value; ratios compare by value, as `boost::rational` equality does. */
  predicate Equivalent(i: TuningInterval, j: TuningInterval)
  {
    match (i, j)
    case (CentsInterval(c), CentsInterval(e)) => c == e
    case (RatioInterval(q), RatioInterval(s)) => Value(q) == Value(s)
    case _ => false
  }

  lemma TimesTwoToStep(v: real, k: int)
    ensures TimesTwoTo(v, k + 1) == 2.0 * TimesTwoTo(v, k)
  {
  }

  /** Scaling by 2^j and then by 2^k is scaling by 2^(j+k). */
  lemma {:induction false} TimesTwoToAdd(v: real, j: int, k: int)
    ensures TimesTwoTo(TimesTwoTo(v, j), k) == TimesTwoTo(v, j + k)
    decreases if k >= 0 then k else -k
  {
    if k > 0 {
      TimesTwoToAdd(v, j, k - 1);
      TimesTwoToStep(v, j + k - 1);
    } else if k < 0 {
      TimesTwoToAdd(v, j, k + 1);
      TimesTwoToStep(v, j + k);
      TimesTwoToStep(TimesTwoTo(v, j), k);
    }
  }

  /** Multiplying by `powi(2, k)` is scaling by 2^k. */
  lemma {:induction false} TimesPowTwo(v: real, k: int)
    requires k >= 0
    ensures TimesTwoTo(v, k) == v * Pow(2, k) as real
  {
    if k > 0 {
      TimesPowTwo(v, k - 1);
      var p := Pow(2, k - 1) as real;
      assert Pow(2, k) == 2 * Pow(2, k - 1);
      assert Pow(2, k) as real == 2.0 * p;
      assert TimesTwoTo(v, k) == 2.0 * TimesTwoTo(v, k - 1);
      assert v * (2.0 * p) == 2.0 * (v * p);
    }
  }

  /** Scaling by 2^-k undoes a multiplication by `powi(2, k)`. */
  lemma {:induction false} TimesTwoToNegPow(v: real, k: int)
    requires k >= 0
    ensures TimesTwoTo(v, -k) * Pow(2, k) as real == v
  {
    if k > 0 {
      TimesTwoToNegPow(v, k - 1);
      var p, w := Pow(2, k - 1) as real, TimesTwoTo(v, -k);
      assert Pow(2, k) == 2 * Pow(2, k - 1);
      assert Pow(2, k) as real == 2.0 * p;
      TimesTwoToStep(v, -k);
      assert TimesTwoTo(v, -(k - 1)) == 2.0 * w;
      assert w * (2.0 * p) == (2.0 * w) * p;
    }
  }

  /** Dividing by `powi(2, k)` is scaling by 2^-k. */
  lemma DividedByPowTwo(v: real, k: int)
    requires k >= 0
    ensures TimesTwoTo(v, -k) == v * (1.0 / Pow(2, k) as real)
  {
    TimesTwoToNegPow(v, k);
    var p, w := Pow(2, k) as real, TimesTwoTo(v, -k);
    assert (v * (1.0 / p)) * p == v;
    RealCancel(w, v * (1.0 / p), p);
  }

  /** Transposing by j and then by k is transposing by j + k. */
  lemma TransposeComposes(i: TuningInterval, j: int, k: int)
    ensures Equivalent(TransposeOctaves(TransposeOctaves(i, j), k), TransposeOctaves(i, j + k))
  {
    if i.RatioInterval? {
      TimesTwoToAdd(Value(i.ratio), j, k);
    }
  }

  /** Transposing by k and back by -k gives an equal interval: the same cents
      exactly, or the same ratio value. */
  lemma TransposeRoundTrip(i: TuningInterval, k: int)
    ensures Equivalent(TransposeOctaves(TransposeOctaves(i, k), -k), i)
  {
    TransposeComposes(i, k, -k);
  }
}
