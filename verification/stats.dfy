/** The statistics engine shared by the hook (src/hooks/useCubeTimer.js) and
    the archived single-file timer (archive/script.js), whose functions of the
    same names have identical bodies: median, trimmed average of N values,
    average of the N newest solves, and best average over every window of N
    consecutive solves. */
module Stats {
  import opened Wrappers
  import opened SeqMath
  import opened SolveLog

  /** The window sizes for which current and best averages are kept. */
  const AverageSizes: seq<nat> := [5, 12, 25, 50, 100]

  /** `Math.ceil(N * 0.05)`, computed exactly: the number of values dropped
      from each end of a sorted window of N >= 5 values. */
  function TrimCount(n: nat): (t: nat)
    ensures t * 20 >= n
    ensures n > 0 ==> (t - 1) * 20 < n
  {
    (n + 19) / 20
  }

  lemma {:induction false} TrimCountOfSizes()
    ensures TrimCount(5) == 1 && TrimCount(12) == 1 && TrimCount(25) == 2
    ensures TrimCount(50) == 3 && TrimCount(100) == 5
  {
  }

  /** For N >= 5 the trim leaves at least one value in a window of N, so the
      "not enough values after trimming" branch is dead. */
  lemma {:induction false} TrimLeavesValues(n: nat)
    requires n >= 5
    ensures 2 * TrimCount(n) < n
  {
  }

  /** The middle of a sorted non-empty sequence: the central element for an
      odd length, the mean of the two central ones for an even length. */
  function Middle(sorted: seq<real>): real
    requires |sorted| > 0
  {
    var n := |sorted|;
    if n % 2 == 0 then
      var mid1 := sorted[n / 2 - 1];
      var mid2 := sorted[n / 2];
      (mid1 + mid2) / 2.0
    else
      sorted[n / 2]
  }

  /** `calculateMedian`: no value for an empty input; otherwise the middle of
      the sorted values. */
  function Median(values: seq<real>): (r: Option<real>)
    ensures r.None? <==> |values| == 0
    ensures r.Some? ==> Min(values) <= r.value <= Max(values)
  {
    if |values| == 0 then None
    else
      SortBounds(values);
      Some(Middle(Sort(values)))
  }

  /** The mean of a sorted sequence with t values dropped from each end; no
      value when nothing would remain. */
  function TrimmedMean(sorted: seq<real>, t: nat): Option<real>
  {
    if |sorted| <= t * 2 then None
    else
      var trimmed := sorted[t..|sorted| - t];
      if |trimmed| == 0 then None else Some(Mean(trimmed))
  }

  /** `calculateAverageFromValues(values, N)`: no value when fewer than N
      values are given; for N >= 5 the mean of the sorted values with
      TrimCount(N) dropped from each end; for N < 5 the plain mean. */
  function AverageFromValues(values: seq<real>, n: nat): (r: Option<real>)
    ensures r.None? <==> |values| < n || |values| == 0
  {
    if |values| < n then None
    else if n >= 5 then
      TrimLeavesValues(n);
      TrimmedMean(Sort(values), TrimCount(n))
    else
      if |values| == 0 then None else Some(Mean(values))
  }

  /** Below five values nothing is trimmed: the result is the arithmetic mean. */
  lemma {:induction false} SmallAverageIsMean(values: seq<real>, n: nat)
    requires n < 5 && |values| >= n && |values| > 0
    ensures AverageFromValues(values, n) == Some(Sum(values) / (|values| as real))
  {
  }

  /** A trimmed average lies between the least and the greatest value. */
  lemma {:induction false} AverageBetweenMinMax(values: seq<real>, n: nat)
    requires AverageFromValues(values, n).Some?
    ensures Min(values) <= AverageFromValues(values, n).value <= Max(values)
  {
    if n >= 5 {
      var sorted := Sort(values);
      var t := TrimCount(n);
      var trimmed := sorted[t..|sorted| - t];
      assert AverageFromValues(values, n) == Some(Mean(trimmed));
      SortBounds(values);
      assert forall i :: 0 <= i < |trimmed| ==> trimmed[i] == sorted[t + i];
      MeanBounds(trimmed, Min(values), Max(values));
    } else {
      MeanBetweenMinMax(values);
    }
  }

  /** For 5 <= N <= 20 (so for Ao5 and Ao12) the trim is exactly one value at
      each end: the result is the sum without one minimum and one maximum,
      over the count of the remaining values. */
  lemma {:induction false} DropOneMinOneMax(values: seq<real>, n: nat)
    requires 5 <= n <= 20 && |values| >= n
    ensures AverageFromValues(values, n)
            == Some((Sum(values) - Min(values) - Max(values)) / ((|values| - 2) as real))
  {
    TrimOneIsMiddle(values, n);
    MeanWithoutEnds(values);
  }

  lemma {:induction false} TrimOneIsMiddle(values: seq<real>, n: nat)
    requires 5 <= n <= 20 && |values| >= n
    ensures AverageFromValues(values, n) == Some(Mean(Sort(values)[1..|values| - 1]))
  {
    AverageIsTrimmedSort(values, n);
    assert TrimCount(n) == 1;
    TrimmedMeanOne(Sort(values));
  }

  /** From five values on, the average trims the sorted values. */
  lemma {:induction false} AverageIsTrimmedSort(values: seq<real>, n: nat)
    requires 5 <= n <= |values|
    ensures AverageFromValues(values, n) == TrimmedMean(Sort(values), TrimCount(n))
  {
  }

  /** Trimming one value from each end of three or more leaves the inner part. */
  lemma {:induction false} TrimmedMeanOne(sorted: seq<real>)
    requires |sorted| >= 3
    ensures TrimmedMean(sorted, 1) == Some(Mean(sorted[1..|sorted| - 1]))
  {
  }

  /** The order of the values inside a window does not matter. */
  lemma {:induction false} AveragePermutationInvariant(a: seq<real>, b: seq<real>, n: nat)
    requires multiset(a) == multiset(b)
    ensures AverageFromValues(a, n) == AverageFromValues(b, n)
  {
    assert |a| == |multiset(a)| == |multiset(b)| == |b|;
    SortPermutationInvariant(a, b);
    SumPermutationInvariant(a, b);
  }

  /** The median does not depend on the order of its input either. */
  lemma {:induction false} MedianPermutationInvariant(a: seq<real>, b: seq<real>)
    requires multiset(a) == multiset(b)
    ensures Median(a) == Median(b)
  {
    assert |a| == |multiset(a)| == |multiset(b)| == |b|;
    SortPermutationInvariant(a, b);
  }

  /** The median of already sorted values is their middle. */
  lemma {:induction false} MedianOfSorted(s: seq<real>)
    requires Sorted(s) && |s| > 0
    ensures Median(s) == Some(Middle(s))
  {
    SortOfSorted(s);
  }

  /** The median of an even number of sorted values is the mean of the two
      central ones. */
  lemma {:induction false} MedianOfSortedEven(s: seq<real>)
    requires Sorted(s) && |s| > 0 && |s| % 2 == 0
    ensures Median(s) == Some((s[|s| / 2 - 1] + s[|s| / 2]) / 2.0)
  {
    MedianOfSorted(s);
  }

  /** The median of an odd number of sorted values is the central one. */
  lemma {:induction false} MedianOfSortedOdd(s: seq<real>)
    requires Sorted(s) && |s| % 2 == 1
    ensures Median(s) == Some(s[|s| / 2])
  {
    MedianOfSorted(s);
  }

  /** The trimmed average of already sorted values trims them directly. */
  lemma {:induction false} AverageOfSorted(s: seq<real>, n: nat)
    requires Sorted(s) && 5 <= n <= |s|
    ensures AverageFromValues(s, n) == TrimmedMean(s, TrimCount(n))
  {
    SortOfSorted(s);
  }

  /** For 5 <= N <= 20 the average of sorted values drops the first and the
      last and averages the rest. */
  lemma {:induction false} SortedTrimOne(s: seq<real>, n: nat)
    requires Sorted(s) && 5 <= n <= 20 && n <= |s|
    ensures AverageFromValues(s, n) == Some(Mean(s[1..|s| - 1]))
  {
    AverageOfSorted(s, n);
    assert TrimCount(n) == 1;
    TrimmedMeanOne(s);
  }

  /** Worked cases: the median of 1, 2, 3, 4 is 2.5 and of 1, 2, 3 is 2. */
  lemma {:induction false} MedianExamples(four: seq<real>, three: seq<real>)
    requires four == [1.0, 2.0, 3.0, 4.0] && three == [1.0, 2.0, 3.0]
    ensures Median(four) == Some(2.5) && Median(three) == Some(2.0)
  {
    MedianOfFour(four);
    MedianOfThree(three);
  }

  lemma {:induction false} MedianOfFour(four: seq<real>)
    requires four == [1.0, 2.0, 3.0, 4.0]
    ensures Median(four) == Some(2.5)
  {
    assert |four| == 4 && four[1] == 2.0 && four[2] == 3.0;
    assert Sorted(four);
    MedianOfSortedEven(four);
  }

  lemma {:induction false} MedianOfThree(three: seq<real>)
    requires three == [1.0, 2.0, 3.0]
    ensures Median(three) == Some(2.0)
  {
    assert |three| == 3 && three[1] == 2.0;
    assert Sorted(three);
    MedianOfSortedOdd(three);
  }

  /** The average of the window of N solves starting at index i. */
  function WindowAverage(times: seq<real>, n: nat, i: nat): Option<real>
    requires i + n <= |times|
  {
    AverageFromValues(times[i..i + n], n)
  }

  /** `calculateCurrentAverage(N)` / `calculateAverage(N)`: the average of the
      N newest solves, none when fewer than N exist. */
  function CurrentAverage(log: Log, n: nat): (r: Option<real>)
    ensures r.None? <==> |log| < n || n == 0
    ensures r.Some? ==> r == WindowAverage(Times(log), n, 0)
  {
    if |log| < n then None
    else
      TimesSlice(log, 0, n);
      AverageFromValues(Times(log[..n]), n)
  }

  /** The loop of `findOverallBestAverage` after its first k iterations: a
      window's average replaces the running best only when strictly lower. */
  function BestOfFirst(times: seq<real>, n: nat, k: nat): (r: Option<real>)
    requires k + n <= |times| + 1
    ensures r.Some? <==> exists i :: 0 <= i < k && WindowAverage(times, n, i).Some?
    ensures r.Some? ==> exists i :: 0 <= i < k && WindowAverage(times, n, i) == r
    ensures r.Some? ==> forall i :: 0 <= i < k && WindowAverage(times, n, i).Some?
                                    ==> r.value <= WindowAverage(times, n, i).value
  {
    if k == 0 then None
    else
      var best := BestOfFirst(times, n, k - 1);
      var current := WindowAverage(times, n, k - 1);
      if current.Some? && (best.None? || current.value < best.value) then current else best
  }

  /** `findOverallBestAverage(N)`: the least average over all |log| - N + 1
      windows of N consecutive solves, none when fewer than N solves exist. */
  function BestAverage(log: Log, n: nat): (r: Option<real>)
    ensures r.None? <==> |log| < n || n == 0
    ensures r.Some? ==> exists i :: 0 <= i <= |log| - n && WindowAverage(Times(log), n, i) == r
    ensures r.Some? ==> forall i :: 0 <= i <= |log| - n && WindowAverage(Times(log), n, i).Some?
                                    ==> r.value <= WindowAverage(Times(log), n, i).value
  {
    if |log| < n then None
    else
      var times := Times(log);
      assert n > 0 ==> WindowAverage(times, n, 0).Some?;
      BestOfFirst(times, n, |log| - n + 1)
  }

  /** The current window is one of the windows, so the best average is at
      most the current one, and both exist together. */
  lemma {:induction false} BestAtMostCurrent(log: Log, n: nat)
    ensures BestAverage(log, n).Some? <==> CurrentAverage(log, n).Some?
    ensures BestAverage(log, n).Some? ==> BestAverage(log, n).value <= CurrentAverage(log, n).value
  {
  }

  /** Every average of a log of non-negative times is non-negative. */
  lemma {:induction false} AverageNonNegative(log: Log, n: nat)
    requires ValidLog(log)
    ensures CurrentAverage(log, n).Some? ==> CurrentAverage(log, n).value >= 0.0
    ensures BestAverage(log, n).Some? ==> BestAverage(log, n).value >= 0.0
  {
    var times := Times(log);
    ValidTimes(log);
    if BestAverage(log, n).Some? {
      var i :| 0 <= i <= |log| - n && WindowAverage(times, n, i) == BestAverage(log, n);
      WindowNonNegative(times, n, i);
      WindowNonNegative(times, n, 0);
    }
  }

  /** A window of non-negative times has a non-negative average. */
  lemma {:induction false} WindowNonNegative(times: seq<real>, n: nat, i: nat)
    requires i + n <= |times| && forall x :: x in times ==> x >= 0.0
    ensures WindowAverage(times, n, i).Some? ==> WindowAverage(times, n, i).value >= 0.0
  {
    var w := times[i..i + n];
    if AverageFromValues(w, n).Some? {
      AverageBetweenMinMax(w, n);
      assert Min(w) in times;
    }
  }

  /** The current average lies between the least and greatest of the N
      newest times. */
  lemma {:induction false} CurrentAverageBounds(log: Log, n: nat)
    requires CurrentAverage(log, n).Some?
    ensures Min(Times(log)[..n]) <= CurrentAverage(log, n).value <= Max(Times(log)[..n])
  {
    assert Times(log)[0..n] == Times(log)[..n];
    AverageBetweenMinMax(Times(log)[..n], n);
  }

  /** The whole-log figures of `updateStats`. */
  datatype Overview = Overview(
    totalSolves: nat,
    bestTime: Option<real>,
    worstTime: Option<real>,
    medianTime: Option<real>,
    averageTime: Option<real>)

  /** Count, best (least), worst (greatest), median and mean of all times;
      no values for an empty log. */
  function OverviewOf(log: Log): (r: Overview)
    ensures r.totalSolves == |log|
    ensures |log| == 0 ==> r == Overview(0, None, None, None, None)
    ensures |log| > 0 ==> r.bestTime.Some? && r.bestTime.value in Times(log)
                          && forall x :: x in Times(log) ==> r.bestTime.value <= x
    ensures |log| > 0 ==> r.worstTime.Some? && r.worstTime.value in Times(log)
                          && forall x :: x in Times(log) ==> x <= r.worstTime.value
    ensures |log| > 0 ==> r.averageTime == Some(Sum(Times(log)) / (|log| as real))
    ensures r.medianTime == Median(Times(log))
  {
    if |log| == 0 then Overview(0, None, None, None, None)
    else
      var times := Times(log);
      Overview(|log|, Some(Min(times)), Some(Max(times)), Median(times), Some(Mean(times)))
  }

  /** Best <= median <= worst and best <= mean <= worst. */
  lemma {:induction false} OverviewOrdered(log: Log)
    requires |log| > 0
    ensures OverviewOf(log).bestTime.value <= OverviewOf(log).medianTime.value
            <= OverviewOf(log).worstTime.value
    ensures OverviewOf(log).bestTime.value <= OverviewOf(log).averageTime.value
            <= OverviewOf(log).worstTime.value
  {
    MeanBetweenMinMax(Times(log));
  }
}
