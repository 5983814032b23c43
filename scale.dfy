/** `Tuning`: a named scale of intervals above the tonic, repeated at every
    octave so that it has a pitch for every integer index. Pitch 0 is the
    tonic, pitches 1..degree are the stored intervals, and every further
    period is the same intervals moved by whole octaves. */
module Scales {
  import opened Fractions
  import opened IntMath
  import opened Intervals

  datatype Tuning = Tuning(name: string, description: string, intervals: seq<TuningInterval>)

  /** `degree()`: the number of stored intervals, the period N of `at`; it is
      0 exactly for a tuning without intervals. */
  function Degree(t: Tuning): (d: nat)
    ensures d == |t.intervals|
    ensures d == 0 <==> t.intervals == []
  {
    |t.intervals|
  }

  /** The additive identity `TuningInterval{ 1, 1 }` that `at(0)` returns. */
  const Unison := FromFraction(1, 1)

  /** The octave of pitch n != 0 as `at` computes it with C++ truncating
      division, `n < 0 ? n / N - 1 : (n - 1) / N`. It is floor((n - 1) / N). */
  function Octave(n: int, N: int): (k: int)
    requires N >= 1 && n != 0
    ensures k == (n - 1) / N
  {
    if n < 0 then
      var m := -n;
      assert TruncDiv(n, N) == -(m / N);
      DivUnique(n - 1, N, -(m / N) - 1, N - m % N - 1);
      TruncDiv(n, N) - 1
    else
      TruncDiv(n - 1, N)
  }

  /** `at(n)`: the tonic for n == 0; otherwise the stored interval at
      `euclidean_remainder(n - 1, N)` moved by `Octave(n, N)` octaves, which is
      the interval at (n - 1) mod N moved by floor((n - 1) / N) octaves. A
      non-zero index needs a non-empty tuning (`euclidean_remainder` asserts
      a non-zero divisor). */
  function At(t: Tuning, n: int): (r: TuningInterval)
    requires n == 0 || Degree(t) >= 1
    ensures n == 0 ==> r == Unison
    ensures n != 0 ==> r == TransposeOctaves(t.intervals[(n - 1) % Degree(t)], (n - 1) / Degree(t))
  {
    if n == 0 then
      Unison
    else
      var baseIndex := EuclideanRemainder(n - 1, Degree(t));
      TransposeOctaves(t.intervals[baseIndex], Octave(n, Degree(t)))
  }

  /** Every stored interval at every octave is some pitch: index i moved by k
      octaves is pitch k * N + i + 1 (unless that is the tonic's index 0). */
  lemma AtReachesEveryTransposition(t: Tuning, i: int, k: int)
    requires 0 <= i < Degree(t) && k * Degree(t) + i + 1 != 0
    ensures At(t, k * Degree(t) + i + 1) == TransposeOctaves(t.intervals[i], k)
  {
    var N := Degree(t);
    DivUnique(k * N + i, N, k, i);
  }

  /** The first period is the stored intervals themselves, unchanged. */
  lemma AtFirstPeriodIsStored(t: Tuning, n: int)
    requires 1 <= n <= Degree(t)
    ensures At(t, n) == t.intervals[n - 1]
  {
    DivUnique(n - 1, Degree(t), 0, n - 1);
  }

  /** Away from the tonic, moving one period up is moving one octave up. */
  lemma AtNextPeriod(t: Tuning, n: int)
    requires Degree(t) >= 1 && n != 0 && n + Degree(t) != 0
    ensures Equivalent(At(t, n + Degree(t)), TransposeOctaves(At(t, n), 1))
  {
    var N := Degree(t);
    var i, k := (n - 1) % N, (n - 1) / N;
    DivUnique(n + N - 1, N, k + 1, i);
    TransposeComposes(t.intervals[i], k, 1);
  }

  /** When the last stored interval is the octave 2/1 (as in a Scala file), the
      tonic fits the pattern too: for every n, pitch n + N is pitch n one octave up. */
  lemma AtPeriodicWhenClosedByOctave(t: Tuning, n: int)
    requires Degree(t) >= 1
    requires t.intervals[Degree(t) - 1].RatioInterval? && Value(t.intervals[Degree(t) - 1].ratio) == 2.0
    ensures Equivalent(At(t, n + Degree(t)), TransposeOctaves(At(t, n), 1))
  {
    var N := Degree(t);
    var last := t.intervals[N - 1];
    if n == 0 {
      AtFirstPeriodIsStored(t, N);
      assert TimesTwoTo(Value(Unison.ratio), 1) == 2.0;
    } else if n + N == 0 {
      AtReachesEveryTransposition(t, N - 1, -2);
      TransposeComposes(last, -2, 1);
      assert TimesTwoTo(2.0, -1) == 1.0;
    } else {
      AtNextPeriod(t, n);
    }
  }

  /** Without the closing octave the tonic breaks the pattern: in a tuning
      holding only 3/2, pitch 1 is 3/2 but the tonic moved up an octave is 2. */
  lemma AtTonicOutOfPeriod()
    ensures var t := Tuning("fifth", "", [FromFraction(3, 2)]);
      !Equivalent(At(t, 0 + Degree(t)), TransposeOctaves(At(t, 0), 1))
  {
    var t := Tuning("fifth", "", [FromFraction(3, 2)]);
    AtFirstPeriodIsStored(t, 1);
    assert TimesTwoTo(Value(Unison.ratio), 1) == 2.0;
    assert Value(At(t, 1).ratio) == 1.5;
  }
}
