/** The performance chart (src/components/stats/PerformanceChart.js): the
    window of the 50 newest solves in chronological order, the flag that
    marks a point as a personal best, and the range of the time axis. */
module Chart {
  import opened Wrappers
  import opened SeqMath
  import opened SolveLog

  /** How many of the newest solves the chart shows. */
  const WindowSize: nat := 50

  function Reverse(s: seq<real>): (r: seq<real>)
    ensures |r| == |s|
    ensures forall i :: 0 <= i < |s| ==> r[i] == s[|s| - 1 - i]
  {
    if |s| == 0 then [] else Reverse(s[1..]) + [s[0]]
  }

  lemma {:induction false} ReverseReverse(s: seq<real>)
    ensures Reverse(Reverse(s)) == s
  {
  }

  /** `isPersonalBest(timeValue, index, allTimes)` over chronological times:
      true at index 0, otherwise true when the value is strictly below the
      least of the times before the index (`slice` stops at the end). */
  function IsPersonalBest(value: real, index: nat, history: seq<real>): (b: bool)
    ensures b <==> forall j :: 0 <= j < index && j < |history| ==> value < history[j]
  {
    var previous := history[..if index <= |history| then index else |history|];
    if |previous| == 0 then true
    else
      assert forall j :: 0 <= j < |previous| ==> previous[j] in previous;
      value < Min(previous)
  }

  /** A tie with the earlier best is not a new best. */
  lemma {:induction false} TieIsNotBest(history: seq<real>, i: nat, j: nat)
    requires i < j < |history| && history[i] == history[j]
    ensures !IsPersonalBest(history[j], j, history)
  {
  }

  /** The personal bests among the first k times, in chronological order. */
  function BestsSoFar(history: seq<real>, k: nat): seq<real>
    requires k <= |history|
  {
    if k == 0 then []
    else if IsPersonalBest(history[k - 1], k - 1, history) then BestsSoFar(history, k - 1) + [history[k - 1]]
    else BestsSoFar(history, k - 1)
  }

  ghost predicate StrictlyDecreasing(s: seq<real>)
  {
    forall i, j :: 0 <= i < j < |s| ==> s[j] < s[i]
  }

  /** The flagged values strictly decrease, and the last of them is the
      least time so far. */
  lemma {:induction false} BestsDecrease(history: seq<real>, k: nat)
    requires k <= |history|
    ensures StrictlyDecreasing(BestsSoFar(history, k))
    ensures k > 0 ==> |BestsSoFar(history, k)| > 0
                      && BestsSoFar(history, k)[|BestsSoFar(history, k)| - 1] == Min(history[..k])
  {
    if k == 1 {
      BestsLast(history, 1);
    } else if k > 1 {
      BestsDecrease(history, k - 1);
      BestsLast(history, k);
      var x := history[k - 1];
      var before := BestsSoFar(history, k - 1);
      var flagged := IsPersonalBest(x, k - 1, history);
      FlaggedIsNewMin(history, k);
      BestsStep(before, x, flagged, Min(history[..k - 1]), BestsSoFar(history, k), Min(history[..k]));
    }
  }

  /** The last flagged value among the first k > 0 times is the least of
      them. */
  lemma {:induction false} BestsLast(history: seq<real>, k: nat)
    requires 0 < k <= |history|
    ensures |BestsSoFar(history, k)| > 0
    ensures BestsSoFar(history, k)[|BestsSoFar(history, k)| - 1] == Min(history[..k])
  {
    var x := history[k - 1];
    var after := BestsSoFar(history, k);
    if k == 1 {
      assert IsPersonalBest(x, 0, history);
      assert after == BestsSoFar(history, 0) + [x];
      assert BestsSoFar(history, 0) + [x] == [x];
      MinSingleton(history, x);
    } else {
      BestsLast(history, k - 1);
      var before := BestsSoFar(history, k - 1);
      FlaggedIsNewMin(history, k);
      assert after == if x < Min(history[..k - 1]) then before + [x] else before;
    }
  }

  lemma {:induction false} MinSingleton(history: seq<real>, x: real)
    requires |history| > 0 && history[0] == x
    ensures Min(history[..1]) == x
  {
    assert history[..1] == [x];
  }

  /** After the first time, a time is flagged exactly when it is below the
      least earlier time, and the least time so far then moves to it. */
  lemma {:induction false} FlaggedIsNewMin(history: seq<real>, k: nat)
    requires 1 < k <= |history|
    ensures IsPersonalBest(history[k - 1], k - 1, history) <==> history[k - 1] < Min(history[..k - 1])
    ensures Min(history[..k]) == if history[k - 1] < Min(history[..k - 1]) then history[k - 1] else Min(history[..k - 1])
  {
    assert history[..k] == history[..k - 1] + [history[k - 1]];
    MinAppend(history[..k - 1], history[k - 1]);
  }

  /** One step of BestsSoFar: a value is appended exactly when it is below
      the least time so far, which is the last best; the sequence stays
      strictly decreasing and its last element is the new least time. */
  lemma {:induction false} BestsStep(before: seq<real>, x: real, flagged: bool, least: real,
                                     after: seq<real>, newLeast: real)
    requires StrictlyDecreasing(before) && |before| > 0 && before[|before| - 1] == least
    requires flagged <==> x < least
    requires after == if flagged then before + [x] else before
    requires newLeast == if flagged then x else least
    ensures StrictlyDecreasing(after)
    ensures |after| > 0 && after[|after| - 1] == newLeast
  {
    if flagged {
      forall i, j | 0 <= i < j < |after|
        ensures after[j] < after[i]
      {
        if j == |before| && i < |before| - 1 {
          assert before[|before| - 1] < before[i];
        }
      }
    }
  }

  /** `times.slice().reverse()`: all times, oldest first. */
  function Chronological(log: Log): (r: seq<real>)
    ensures |r| == |log|
    ensures forall i :: 0 <= i < |log| ==> r[i] == log[|log| - 1 - i].time
  {
    Reverse(Times(log))
  }

  /** `times.slice(0, 50).reverse()`: the 50 newest times, oldest first. */
  function ChartWindow(log: Log): (w: seq<real>)
    ensures |w| == if |log| < WindowSize then |log| else WindowSize
    ensures forall i :: 0 <= i < |w| ==> w[i] == log[|w| - 1 - i].time
  {
    var n := if |log| < WindowSize then |log| else WindowSize;
    Reverse(Times(log)[..n])
  }

  /** The window is the chronological log from where the window starts. */
  lemma {:induction false} WindowIsSuffix(log: Log)
    ensures ChartWindow(log) == Chronological(log)[|log| - |ChartWindow(log)|..]
  {
  }

  /** The personal-best flag of each point of a window, each compared with
      the history before position `start` plus its own index. */
  function FlagsFrom(w: seq<real>, history: seq<real>, start: nat): (f: seq<bool>)
    requires start + |w| <= |history|
    ensures |f| == |w|
    ensures forall k :: 0 <= k < |f| ==> (f[k] <==> forall j :: 0 <= j < start + k ==> w[k] < history[j])
  {
    seq(|w|, k requires 0 <= k < |w| => IsPersonalBest(w[k], start + k, history))
  }

  /** The flags the chart draws: point k of the window is compared with the
      first k entries of the whole chronological log, which are the k
      oldest solves rather than the k points before it. */
  function ChartFlags(log: Log): (f: seq<bool>)
    ensures |f| == |ChartWindow(log)|
    ensures forall k :: 0 <= k < |f| ==>
              (f[k] <==> forall j :: 0 <= j < k ==> ChartWindow(log)[k] < Chronological(log)[j])
  {
    FlagsFrom(ChartWindow(log), Chronological(log), 0)
  }

  /** The flags compared with every solve before the point, wherever the
      window starts in the log. */
  function TrueFlags(log: Log): (f: seq<bool>)
    ensures |f| == |ChartWindow(log)|
    ensures forall k :: 0 <= k < |f| ==>
              (f[k] <==> forall j :: 0 <= j < |log| - |f| + k ==> ChartWindow(log)[k] < Chronological(log)[j])
  {
    FlagsFrom(ChartWindow(log), Chronological(log), |log| - |ChartWindow(log)|)
  }

  /** Up to 50 solves the window is the whole log, and both agree. */
  lemma {:induction false} FlagsAgreeWithinWindow(log: Log)
    requires |log| <= WindowSize
    ensures ChartFlags(log) == TrueFlags(log)
  {
    var f := ChartFlags(log);
    var g := TrueFlags(log);
    assert |log| - |g| == 0;
    forall k | 0 <= k < |f|
      ensures f[k] == g[k]
    {
    }
  }

  /** Point k of the window is the solve at position |log| - |window| + k of
      the chronological log, so a true flag compares it with exactly the
      solves before it. */
  lemma {:induction false} WindowPosition(log: Log, k: nat)
    requires k < |ChartWindow(log)|
    ensures ChartWindow(log)[k] == Chronological(log)[|log| - |ChartWindow(log)| + k]
  {
  }

  /** Every real personal best is flagged: the k oldest solves are among
      those before the point. */
  lemma {:induction false} TrueFlagsAreFlagged(log: Log, k: nat)
    requires k < |TrueFlags(log)| && TrueFlags(log)[k]
    ensures ChartFlags(log)[k]
  {
    assert |log| - |TrueFlags(log)| + k >= k;
  }

  /** From 51 solves on the flags can be wrong: the first point of the
      window is always flagged, though the oldest solve may be faster. */
  lemma {:induction false} FlagsMisplaced(log: Log)
    requires |log| == WindowSize + 1 && log[WindowSize].time <= log[WindowSize - 1].time
    ensures ChartFlags(log)[0] && !TrueFlags(log)[0]
  {
    assert ChartWindow(log)[0] == log[WindowSize - 1].time;
    assert Chronological(log)[0] == log[WindowSize].time;
  }

  /** The bounds of the time axis, as the chart's effect computes them. */
  datatype Axis = Axis(
    minTime: real,
    maxTime: real,
    timeRange: real,
    adjustedMin: real,
    adjustedMax: real,
    adjustedRange: real)

  function MaxOf(a: real, b: real): real
  {
    if a >= b then a else b
  }

  /** No axis for an empty chart. Otherwise the range is at least one, both
      ends are padded by a tenth of it, and the lower end stops at zero. */
  function AxisRange(values: seq<real>): (r: Option<Axis>)
    ensures r.None? <==> |values| == 0
    ensures r.Some? ==> r.value.minTime == Min(values) && r.value.maxTime == Max(values)
    ensures r.Some? ==> r.value.timeRange >= 1.0 && r.value.timeRange >= r.value.maxTime - r.value.minTime
    ensures r.Some? ==> r.value.adjustedRange >= 1.0
                        && r.value.adjustedRange >= r.value.adjustedMax - r.value.adjustedMin
    ensures r.Some? ==> 0.0 <= r.value.adjustedMin && r.value.maxTime < r.value.adjustedMax
    ensures r.Some? && r.value.minTime >= 0.0 ==> r.value.adjustedMin < r.value.minTime || r.value.adjustedMin == 0.0
    ensures r.Some? && (forall x :: x in values ==> x >= 0.0) ==>
              forall x :: x in values ==> r.value.adjustedMin <= x < r.value.adjustedMax
  {
    if |values| == 0 then None
    else
      var minTime := Min(values);
      var maxTime := Max(values);
      var timeRange := MaxOf(1.0, maxTime - minTime);
      var yPadding := timeRange * 0.1;
      var adjustedMin := MaxOf(0.0, minTime - yPadding);
      var adjustedMax := maxTime + yPadding;
      Some(Axis(minTime, maxTime, timeRange, adjustedMin, adjustedMax, MaxOf(1.0, adjustedMax - adjustedMin)))
  }

  /** The window of a valid log holds no negative time. */
  lemma {:induction false} WindowNonNegative(log: Log)
    ensures ValidLog(log) ==> forall x :: x in ChartWindow(log) ==> x >= 0.0
  {
    var w := ChartWindow(log);
    if ValidLog(log) {
      forall x | x in w
        ensures x >= 0.0
      {
        var i :| 0 <= i < |w| && w[i] == x;
        assert w[i] == log[|w| - 1 - i].time;
      }
    }
  }

  /** The axis of the chart: drawn from the window, absent for an empty log. */
  function ChartAxis(log: Log): (r: Option<Axis>)
    ensures r.None? <==> |log| == 0
    ensures ValidLog(log) && r.Some? ==>
              forall i :: 0 <= i < |ChartWindow(log)| ==>
                r.value.adjustedMin <= ChartWindow(log)[i] < r.value.adjustedMax
  {
    var w := ChartWindow(log);
    WindowNonNegative(log);
    assert forall i :: 0 <= i < |w| ==> w[i] in w;
    AxisRange(w)
  }
}
