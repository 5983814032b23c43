# Musical tuning core, modelled in Dafny

This project models the numeric core of the MusicTheory tuning library.
A `TuningInterval` holds a pitch interval as either cents (a logarithmic real) or an exact ratio.
A `Tuning` holds N such intervals and extends them to a pitch for every integer index, repeating at the octave.
The repository holds two near-identical copies of the core, `MusicTheory/Tuning.{h,cpp}` and `CMakeProject1/Tuning.{h,cpp}`.
One model covers both:

- `add_octaves` (MusicTheory) and `transpose_octaves` (CMakeProject1) are the same operation, `Intervals.TransposeOctaves`.
- `farey` differs between the copies only in how it decides that x equals the mediant: `almost_equal` in MusicTheory, exact `==` in CMakeProject1. The model takes that test as a parameter `matches`; `Farey.Exact` is the exact one.

Modules:

- `IntMath`: the integer power and its loop `powi`, C++ truncating `/` and `%`, and `euclidean_remainder`.
- `Fractions`: the stand-in for `boost::rational<int>`, a numerator and a positive denominator, compared by value.
- `Farey`: the mediant search `farey` and `closest_rational`. The search is a recursive function `Search` over the four integers a, b, c, d; the method `Farey` runs the source's loop and is proved equal to it. It also holds a corrected search (see Findings).
- `Intervals`: the `TuningInterval` sum type, its constructors, `cents()`, `ratio()` and octave transposition.
- `Scales`: the `Tuning` record, `degree()` (`Scales.Degree`, the length of the interval sequence) and `at(n)`.

`at(n)` returns the tonic 1/1 for n = 0.
For any other n it returns the stored interval at `euclidean_remainder(n - 1, N)`, moved by `n < 0 ? n / N - 1 : (n - 1) / N` octaves, where `/` is C++ truncating division.
The model proves that this octave count is floor((n - 1) / N).
So pitch n is stored interval (n - 1) mod N moved by floor((n - 1) / N) octaves.

The source calls this "an infinitely repeating tuning" (MusicTheory/Tuning.cpp:164-165), which suggests `at(k + N)` is always `at(k)` one octave up.
The code keeps that promise only for k ≠ 0 and k ≠ -N, or when the last stored interval is exactly 2/1 (as Scala files conventionally end).
At k = 0 the tonic is fixed at 1/1, whatever the scale.
The model follows the code:

- `Scales.AtNextPeriod` proves the general case.
- `Scales.AtPeriodicWhenClosedByOctave` proves the case closed by an octave.
- `Scales.AtTonicOutOfPeriod` exhibits a one-interval scale (3/2) where the promise fails at k = 0.

## Model

| member | source | states |
|---|---|---|
| IntMath.Powi | MusicTheory/Tuning.cpp:92-102 | the square-and-multiply loop over the bits of `exp` returns base^exp for every base and exponent |
| IntMath.TruncDiv | MusicTheory/Tuning.cpp:177-179 | C++ `/`: the quotient's magnitude is \|a\| / \|b\| rounded down, and it is negative only when a and b differ in sign (rounds toward zero) |
| IntMath.TruncRem | MusicTheory/Tuning.cpp:160 | C++ `%`: a == b * (a / b) + r with \|r\| < \|b\|, and a non-zero r has the sign of a |
| IntMath.EuclideanRemainder | MusicTheory/Tuning.cpp:157-162 | `euclidean_remainder` with b ≠ 0 (its assert) lies in [0, \|b\|) and is the Euclidean a mod b, so a minus it is a multiple of b |
| IntMath.DivUnique | MusicTheory/Tuning.cpp:157-162 | a == b*q + r with 0 ≤ r < \|b\| determines q and r as the Euclidean quotient and remainder, which is what makes the remainder's correction unique |
| Fractions.AddInt | MusicTheory/Tuning.cpp:70 | `integral_part + rational` has the value of the sum and keeps the denominator |
| Fractions.BetweenNeighbours | MusicTheory/Tuning.cpp:38-62 | a fraction strictly between two Farey neighbours a/b < c/d has a denominator of at least b + d, the fact behind the search's correctness |
| Farey.Exact | CMakeProject1/Tuning.cpp:37 | the equality test of CMakeProject1's `farey`: x matches the mediant exactly when their distance is zero |
| Farey.Search | MusicTheory/Tuning.cpp:45-58 | each iteration only grows the denominators; the loop stops without a match only when a denominator is past the bound |
| Farey.Farey | MusicTheory/Tuning.cpp:41-62 | the loop with its early returns computes exactly the fraction the recursive search defines (`Farey.FareyResult`), for any bound and any equality test |
| Farey.MediantBetween | MusicTheory/Tuning.cpp:47-49 | the mediant of two neighbours lies strictly between them |
| Farey.SearchShape | MusicTheory/Tuning.cpp:45-58 | for any equality test the bounds stay in [0, 1] as integers (0 ≤ a < b, 1 ≤ c ≤ d); a match happens only when `matches` holds with both denominators in bound; an exhausted search leaves exactly one denominator in bound |
| Farey.SearchInvariant | MusicTheory/Tuning.cpp:45-58 | for any equality test the bounds stay Farey neighbours and keep enclosing x |
| Farey.FareyBounds | MusicTheory/Tuning.cpp:41-62 | `farey` returns a fraction in [0, 1], and within the bound when the bound is at least 1 |
| Farey.FareyInUnit | MusicTheory/Tuning.cpp:41-62 | with a bound of at least 1, the value `farey` returns lies in [0, 1] and its denominator in [1, bound] |
| Farey.FareyEncloses | MusicTheory/Tuning.cpp:38-62 | for x in [0, 1] the search ends on neighbours a/b ≤ x ≤ c/d |
| Farey.FareyChoice | MusicTheory/Tuning.cpp:50-61 | on a match `farey` returns the mediant if it fits, else the bound with the larger denominator; without a match it returns the bound still within the bound |
| Farey.ExactSearchHits | CMakeProject1/Tuning.cpp:34-48 | with `==`, the search reaches any fraction p/q in [0, 1] with q within the bound, from any bracket that still tracks it |
| Farey.FareyFindsSmallFractions | CMakeProject1/Tuning.cpp:30-49 | with `==`, `farey(p/q, M)` for 0 ≤ p ≤ q ≤ M returns p/q by value (e.g. 1/2 and 1/3) |
| Farey.Trunc | MusicTheory/Tuning.cpp:66-67 | `std::trunc` to int rounds toward zero: the fractional part is in [0, 1) for x ≥ 0 and in (-1, 0] for x < 0 |
| Farey.FractionalPart | MusicTheory/Tuning.cpp:66-67 | x minus its truncated integral part is in [0, 1) for x ≥ 0 and in (-1, 0] for x < 0, and adding the integral part back gives x |
| Farey.ClosestRational | MusicTheory/Tuning.cpp:64-71 | `closest_rational` returns a denominator between 1 and 200 and a value between the integral part and the next integer |
| Farey.ClosestRationalFindsSmallFractions | CMakeProject1/Tuning.cpp:51-58 | with `==`, `closest_rational(p/q)` for p ≥ 0 and q ≤ 200 returns p/q by value |
| Farey.ExactSearchSlidesDown | CMakeProject1/Tuning.cpp:34-48 | for 0 < x < 1/(M+1) the search only lowers the upper bound and ends at 0/1 and 1/(M+1), returning 0/1 |
| Farey.ClosestRationalMissesCloser | CMakeProject1/Tuning.cpp:30-58 | `closest_rational(1.004)` returns 1/1, while 201/200 is closer and within the bound |
| Farey.CloserEndIsBest | MusicTheory/Tuning.cpp:38-40 | once the next mediant is past the bound, the closer of two neighbours around x is at least as close as every fraction whose denominator is within the bound |
| Farey.FareyClosest | MusicTheory/Tuning.cpp:38-62 | corrected search: for x in [0, 1] it returns a fraction with denominator ≤ M that is at least as close to x as every fraction with denominator ≤ M |
| Farey.ClosestRationalBest | MusicTheory/Tuning.cpp:64-71 | corrected `closest_rational`: for x ≥ 0 the result has denominator ≤ 200 and is at least as close to x as every fraction with denominator ≤ 200 |
| Intervals.FromFraction | MusicTheory/Tuning.h:23 | `TuningInterval(numer, denom)` stores a ratio of value numer/denom, with the sign on the numerator |
| Intervals.CentsOf | MusicTheory/Tuning.cpp:19-25 | `cents()` returns stored cents unchanged, and converts a stored ratio with `ratio_to_cents` |
| Intervals.RatioOf | MusicTheory/Tuning.cpp:73-79 | `ratio()` returns a stored ratio exactly; for stored cents it is `closest_rational` of the converted value, so its denominator is at most 200 |
| Intervals.TransposeOctaves | MusicTheory/Tuning.cpp:106-135 | the storage form is kept; cents move by 1200 per octave; a ratio's value is multiplied by 2^k, changing only the numerator for k > 0 and only the denominator for k < 0; k = 0 returns the interval itself |
| Intervals.ScaleRatio | MusicTheory/Tuning.cpp:114-132 | the ratio branch: its value is the ratio's value times 2^k; k > 0 keeps the denominator, k < 0 keeps the numerator, k = 0 returns the ratio itself |
| Intervals.TimesPowTwo | MusicTheory/Tuning.cpp:119-125 | multiplying by `powi(2, k)` for k ≥ 0 is scaling by 2^k |
| Intervals.DividedByPowTwo | MusicTheory/Tuning.cpp:126-131 | dividing by `powi(2, k)` for k ≥ 0 is scaling by 2^-k |
| Intervals.TimesTwoToAdd | MusicTheory/Tuning.cpp:114-132 | scaling by 2^j and then by 2^k is scaling by 2^(j+k), for all integers j and k |
| Intervals.TransposeComposes | MusicTheory/Tuning.cpp:106-135 | moving by j and then by k octaves gives the same form and value as moving by j + k |
| Intervals.TransposeRoundTrip | MusicTheory/Tuning.cpp:106-135 | moving by k and back by -k gives an interval equal in form and value to the original |
| Scales.Degree | MusicTheory/Tuning.cpp:150-153 | `degree()` is the number of stored intervals, the period N of `at`, and is 0 only for a tuning without intervals |
| Scales.Octave | MusicTheory/Tuning.cpp:177-179 | the truncating formula `n < 0 ? n / N - 1 : (n - 1) / N` is floor((n - 1) / N) for every n ≠ 0 |
| Scales.At | MusicTheory/Tuning.cpp:167-183 | `at(0)` is 1/1; for n ≠ 0 on a non-empty tuning, `at(n)` is stored interval (n - 1) mod N moved by floor((n - 1) / N) octaves |
| Scales.AtReachesEveryTransposition | MusicTheory/Tuning.cpp:164-183 | every stored interval i moved by every octave count k is `at(k·N + i + 1)`, unless that index is 0 |
| Scales.AtFirstPeriodIsStored | MusicTheory/Tuning.cpp:167-183 | for 1 ≤ n ≤ N, `at(n)` is the stored interval n - 1, unchanged |
| Scales.AtNextPeriod | MusicTheory/Tuning.cpp:164-183 | for n ≠ 0 and n + N ≠ 0, `at(n + N)` has the form of `at(n)` moved one octave up, and its value |
| Scales.AtPeriodicWhenClosedByOctave | MusicTheory/Tuning.cpp:164-183 | when the last stored interval is the ratio 2/1, `at(n + N)` is `at(n)` one octave up for every n, the tonic included |
| Scales.AtTonicOutOfPeriod | MusicTheory/Tuning.cpp:167-172 | in a tuning holding only 3/2, `at(0 + N)` is not `at(0)` one octave up |

## Left out

- Floating point. Cents are exact reals, and the mediant is the exact quotient.
- `cents_to_ratio_as_double` and `ratio_to_cents` (`std::pow`, `std::log2`) are function parameters of `Intervals.RatioOf` and `Intervals.CentsOf`.
- `almost_equal` is the abstract `matches` parameter of the search; its epsilon arithmetic is not modelled.
- `ratio_as_double` only converts to `double` and is not modelled.
- `operator<<`, `stream_scala` and `stream_table` only write text to a stream and are not modelled.
- Integers are unbounded. None of the 32-bit overflows of `int` are modelled: in `powi`, in `octaves * CENTS_PER_OCTAVE`, in the numerator and denominator scaling of `add_octaves`, in `static_cast<int>(std::trunc(x))`, or in the `static_cast<int>` of `degree()`.
- `boost::rational` keeps fractions in lowest terms; `Fractions.Ratio` does not reduce. Ratios are compared by value (`Intervals.Equivalent`), as `boost::rational` equality does.
- `boost::rational` throws `bad_rational` on a zero denominator. `Intervals.FromFraction` instead requires a non-zero denominator. Every call in the core passes a power of two times a positive denominator.
- The one-argument constructors `TuningInterval(Cents)` and `TuningInterval(Ratio)` are the datatype constructors `CentsInterval` and `RatioInterval`. The `Tuning` constructor is the datatype constructor; its name and description are used only by the output functions.
- Scales.At: requires a non-empty tuning for n ≠ 0. The source asserts a non-zero divisor there, or divides by zero when asserts are off.
- Farey.ClosestRationalBest: requires x ≥ 0, because every ratio that `ratio()` approximates is positive.

## Findings

| source | as written | input that shows it | evidently intended | confidence | as-written member | corrected member |
|---|---|---|---|---|---|---|
| CMakeProject1/Tuning.cpp:30-58 | `farey` stops once a denominator passes the bound and returns whichever bound is still within it, which need not be the closer one | `closest_rational(1.004)`, i.e. `farey(0.004, 200)`: the upper bound slides down to 1/201 and 0/1 is returned, giving 1/1, while 201/200 is closer | the closest fraction with denominator at most 200, as the comment "find closest rational" says | not executed | Farey.ClosestRationalMissesCloser | Farey.ClosestRationalBest |

The same input gives the same result in `MusicTheory/Tuning.cpp:41-71`: no mediant 1/k with k ≤ 201 is within one unit in the last place of 0.004.
The corrected search `Farey.FareyClosest` stops as soon as the next mediant's denominator would pass the bound.
At that point the two bounds are neighbours in the Farey sequence of that order, and it returns the closer of the two.
`Intervals.RatioOf` keeps the behaviour as written, since that is what `ratio()` computes.
