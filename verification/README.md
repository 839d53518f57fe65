# Cube timer: statistics engine and timer state machine

The cube timer times Rubik's cube solves with the space bar and keeps
statistics over the solves. The repository implements it twice. One version
is a React app: a hook holds the state and the app component handles the
keys. The other is an archived single-file version. This project models
the logic the two versions share and the places where they differ, as pure
Dafny functions over immutable values:

- **Solve log** (`SolveLog`). Solves are kept newest first as `(id, time)`
  pairs. A new solve is prepended, a delete filters out one id, and a
  clear empties the log.
- **Statistics engine** (`SeqMath`, `Stats`). This covers:
  - the median;
  - the trimmed average of N values: a plain mean below five values, and
    otherwise the sorted values with `ceil(N * 0.05)` dropped from each end;
  - the average of the N newest solves;
  - the best average over every window of N consecutive solves;
  - the whole-log overview: count, best, worst, median and mean.

  Arithmetic is on exact reals.
- **Best averages** (`Bests`, `HookSession`, `ArchiveSession`). The two
  versions store the best average per window size in different ways.
  - The hook keeps a stored best unless a strictly lower one appears, so a
    best never rises until the log is cleared.
  - The archive overwrites each best from the current log, so deleting a
    solve can raise a best or erase it.
- **Time rendering** (`TimeFormat`). `formatTime` writes `M:SS.CC` or
  `S.CC`, and `--` for a missing value. `ReadTime` parses the rendering
  back, which states what the rendering means.
- **Timer state machines** (`HookTimer`, `ArchiveTimer`). There are four
  phases: ready, preparing, running and stopped. Each step takes a key
  event with its clock reading and may complete a solve.
  - The React app ignores auto-repeat key-downs. A press in the stopped
    phase returns to ready.
  - The archive ignores every key-down while space is held. It returns to
    ready on a scheduled `AutoReturn` event 2000 ms after stopping.
  - `HookApp` and `ArchiveApp` join each timer to its session: a completed
    solve is saved with the event's clock reading as its id.
- **Panels** (`Panels`). A single panel toggle flips one panel. The
  toggle-all button hides all four panels or shows all four.
- **Chart** (`Chart`). This covers:
  - the 50-newest-solves window in chronological order;
  - the personal-best flag of each point;
  - the y-axis range.

The statistics functions of archive/script.js (`formatTime` at 267-289,
`calculateMedian` at 385-400, `calculateAverageFromValues` at 403-432,
`calculateAverage` at 435-439, `findOverallBestAverage` at 442-462) have the
same bodies as the hook's. The rows below cite the hook, and the same
members model both versions.

Two behaviours of the code are worth stating up front.
- A trimmed Ao-N drops `ceil(N * 0.05)` values from each end
  (src/hooks/useCubeTimer.js:90-96). For Ao5 and Ao12 that is one from each
  end, but it is 2 for Ao25, 3 for Ao50 and 5 for Ao100.
  `Stats.DropOneMinOneMax` shows that this agrees with dropping one minimum
  and one maximum for 5 ≤ N ≤ 20. From N = 21 on the count is 2 or more, and
  `Stats.TrimCountOfSizes` gives it for 25, 50 and 100.
- The two versions treat stored bests differently after a deletion. The
  hook's `updateStats` (src/hooks/useCubeTimer.js:149-166) starts from the
  stored bests and only lowers them, so a deletion never removes one
  (`ArchiveSession.HookKeepsBestOnDelete`). The archive's `updateAverages`
  (archive/script.js:464-488) overwrites every best from the remaining log,
  so a deletion can erase one (`ArchiveSession.DeleteCanEraseBest`).

## Model

| member | source | states |
|---|---|---|
| SeqMath.Min | src/hooks/useCubeTimer.js:141 | `Math.min` of the times is an element of them and no greater than any of them |
| SeqMath.Max | src/hooks/useCubeTimer.js:142 | `Math.max` of the times is an element of them and no less than any of them |
| SeqMath.Sort | src/hooks/useCubeTimer.js:76 | the numeric sort gives an ascending permutation of its input |
| SeqMath.SortedUnique | src/hooks/useCubeTimer.js:91 | two ascending permutations of the same values are equal, so any correct numeric sort gives the sorted sequence the model uses |
| SeqMath.SortPermutationInvariant | src/hooks/useCubeTimer.js:91 | reordering the input does not change the sorted result |
| SeqMath.SortOfSorted | src/hooks/useCubeTimer.js:76 | sorting values already in order leaves them unchanged |
| SeqMath.SortEnds | src/hooks/useCubeTimer.js:91 | after sorting, the first value is the minimum and the last is the maximum |
| SeqMath.SortBounds | src/hooks/useCubeTimer.js:91 | every sorted value lies between the input's minimum and maximum |
| SeqMath.SumPermutationInvariant | src/hooks/useCubeTimer.js:96 | the `reduce` sum does not depend on the order of the values |
| SeqMath.MeanWithoutEnds | src/hooks/useCubeTimer.js:92-96 | the mean of the sorted values without the first and last is the total minus one minimum and one maximum, over N − 2 |
| SeqMath.MeanBetweenMinMax | src/hooks/useCubeTimer.js:144 | the overall mean lies between the minimum and the maximum |
| SolveLog.Times | src/hooks/useCubeTimer.js:140 | `times.map(t => t.time)` keeps the order: position i holds the time of entry i |
| SolveLog.TimesSlice | src/hooks/useCubeTimer.js:105 | mapping a slice of the log gives the same slice of the mapped times |
| SolveLog.ValidTimes | src/hooks/useCubeTimer.js:140 | a log of non-negative solves maps to non-negative times |
| SolveLog.Save | src/hooks/useCubeTimer.js:205 | the new entry becomes entry 0, the old log follows it unchanged, and non-negative times stay non-negative |
| SolveLog.Delete | src/hooks/useCubeTimer.js:234 | the result keeps exactly the entries with a different id; it is the log itself when the id is absent and strictly shorter when the id is present |
| SolveLog.DeleteConcat | src/hooks/useCubeTimer.js:234 | filtering distributes over concatenation, so surviving entries keep their order |
| SolveLog.DeleteIdempotent | src/hooks/useCubeTimer.js:234 | deleting an id a second time changes nothing |
| SolveLog.SaveThenDelete | src/hooks/useCubeTimer.js:229-234 | saving under a fresh id and then deleting that id restores the log |
| SolveLog.DeleteRemovesOne | src/hooks/useCubeTimer.js:233-235 | when ids are distinct, deleting a present id removes exactly one entry |
| TimeFormat.NatToString | src/hooks/useCubeTimer.js:68 | `toString()` of an integer is a non-empty digit string with one digit below 10 and two below 100 |
| TimeFormat.ParseNatToString | src/hooks/useCubeTimer.js:68 | reading back the decimal digits of n gives n |
| TimeFormat.Pad2 | src/hooks/useCubeTimer.js:68 | `padStart(2, "0")` of a number below 100 is exactly two digits |
| TimeFormat.ParsePad2 | src/hooks/useCubeTimer.js:68 | the two padded digits read back as the number |
| TimeFormat.FormatTime | src/hooks/useCubeTimer.js:58-71 | the rendering is `--` exactly for a missing value; otherwise it ends in `.CC`, and it contains a colon exactly when at least 60000 ms have passed |
| TimeFormat.Decompose | src/hooks/useCubeTimer.js:62-65 | minutes, seconds and centiseconds add back up to the count truncated to 10 ms, with seconds below 60 and centiseconds below 100 |
| TimeFormat.FormatShape | src/hooks/useCubeTimer.js:67-71 | with at least one minute the rendering is minutes `:` two-digit seconds `.` two-digit centiseconds; otherwise it is seconds `.` two-digit centiseconds |
| TimeFormat.ReadLong | src/hooks/useCubeTimer.js:68 | a rendering with minutes reads back part by part |
| TimeFormat.ReadShort | src/hooks/useCubeTimer.js:70 | a rendering without minutes reads back part by part |
| TimeFormat.RoundTripLong | src/hooks/useCubeTimer.js:67-68 | a time of a minute or more reads back as itself truncated to whole centiseconds |
| TimeFormat.RoundTripShort | src/hooks/useCubeTimer.js:69-70 | a time under a minute reads back as itself truncated to whole centiseconds |
| TimeFormat.RoundTripNone | src/hooks/useCubeTimer.js:59-60 | the placeholder for a missing value reads back as no value |
| TimeFormat.FormatRoundTrip | src/hooks/useCubeTimer.js:58-71 | every rendered time reads back as the floored count truncated to whole centiseconds |
| Stats.TrimCount | src/hooks/useCubeTimer.js:92 | the trim count is the least t with 20t ≥ N, i.e. `ceil(N * 0.05)` |
| Stats.TrimCountOfSizes | src/hooks/useCubeTimer.js:150 | the five sizes 5, 12, 25, 50 and 100 trim 1, 1, 2, 3 and 5 from each end |
| Stats.TrimLeavesValues | src/hooks/useCubeTimer.js:93 | for N ≥ 5 the trim leaves at least one of N values, so the `<= trimCount * 2` branch is never taken |
| Stats.Median | src/hooks/useCubeTimer.js:74-85 | the median is null exactly for an empty input and otherwise lies between the minimum and maximum |
| Stats.MedianOfSortedEven | src/hooks/useCubeTimer.js:78-81 | for an even count the median is the mean of the two central sorted values |
| Stats.MedianOfSortedOdd | src/hooks/useCubeTimer.js:82-83 | for an odd count the median is the central sorted value |
| Stats.MedianOfSorted | src/hooks/useCubeTimer.js:76-84 | the median of values already in order is their middle |
| Stats.MedianPermutationInvariant | src/hooks/useCubeTimer.js:74-85 | the median does not depend on the order of the values |
| Stats.MedianExamples | src/hooks/useCubeTimer.js:74-85 | the median of 1, 2, 3, 4 is 2.5 and the median of 1, 2, 3 is 2 |
| Stats.AverageFromValues | src/hooks/useCubeTimer.js:87-101 | the average is null exactly when fewer than N values, or no values, are given |
| Stats.SmallAverageIsMean | src/hooks/useCubeTimer.js:97-99 | below N = 5 the average is the plain arithmetic mean |
| Stats.AverageIsTrimmedSort | src/hooks/useCubeTimer.js:90-94 | from N = 5 on, the average is the mean of the sorted values with TrimCount(N) dropped at each end |
| Stats.TrimmedMeanOne | src/hooks/useCubeTimer.js:93-96 | trimming one value from each end of three or more leaves the inner values, and they are averaged |
| Stats.TrimOneIsMiddle | src/hooks/useCubeTimer.js:90-96 | for 5 ≤ N ≤ 20 the average is the mean of the sorted values without the first and last |
| Stats.DropOneMinOneMax | src/hooks/useCubeTimer.js:90-96 | for 5 ≤ N ≤ 20 (Ao5, Ao12) the average is the sum without one minimum and one maximum, over N − 2 |
| Stats.AverageBetweenMinMax | src/hooks/useCubeTimer.js:88-99 | any average that exists lies between the least and greatest of its values |
| Stats.AveragePermutationInvariant | src/hooks/useCubeTimer.js:89-96 | the average does not depend on the order of the values in the window |
| Stats.AverageOfSorted | src/hooks/useCubeTimer.js:91-94 | for values already in order, the average trims them directly |
| Stats.SortedTrimOne | src/hooks/useCubeTimer.js:90-96 | for ordered values and 5 ≤ N ≤ 20 the average is the mean without the first and last value |
| Stats.CurrentAverage | src/hooks/useCubeTimer.js:103-107 | the current Ao-N is null exactly when fewer than N solves exist (or N = 0) and is otherwise the average of window 0, the N newest solves |
| Stats.CurrentAverageBounds | src/hooks/useCubeTimer.js:103-107 | the current Ao-N lies between the least and greatest of the N newest times |
| Stats.BestOfFirst | src/hooks/useCubeTimer.js:111-121 | after k iterations the running best exists exactly when one of the first k windows has an average; it is one of those averages and no greater than any of them |
| Stats.BestAverage | src/hooks/useCubeTimer.js:109-123 | the best Ao-N is null exactly when fewer than N solves exist, and is otherwise the average of some window and at most every window's average |
| Stats.BestAtMostCurrent | src/hooks/useCubeTimer.js:103-123 | the best and the current Ao-N exist together, and the best is at most the current |
| Stats.AverageNonNegative | src/hooks/useCubeTimer.js:103-123 | for non-negative solves the current and best averages are non-negative |
| Stats.WindowNonNegative | src/hooks/useCubeTimer.js:113-115 | a window of non-negative times has a non-negative average |
| Stats.OverviewOf | src/hooks/useCubeTimer.js:140-146 | the overview counts the solves; best and worst are the least and greatest times, average is sum over count, and median is the median of the times; all values are null for an empty log |
| Stats.OverviewOrdered | src/hooks/useCubeTimer.js:141-144 | best ≤ median ≤ worst and best ≤ average ≤ worst |
| Bests.Lookup | src/hooks/useCubeTimer.js:159 | a stored best is present exactly when its key is in the record, and then it is that value |
| Bests.LookupExtensional | src/hooks/useCubeTimer.js:149 | two records that agree on every size are the same record |
| Bests.Reached | src/hooks/useCubeTimer.js:156-158 | the sizes with a best average are exactly the listed sizes no larger than the log |
| HookSession.KeepLower | src/hooks/useCubeTimer.js:158-162 | the kept best is the stored or the candidate best, present when either is, and no greater than either |
| HookSession.KeepBest | src/hooks/useCubeTimer.js:148-166 | the new record has the old keys plus every reached size, never raises a best, is at most the log's best for each reached size, and keeps other keys |
| HookSession.UpdateStats | src/hooks/useCubeTimer.js:125-167 | an empty log shows all current averages as null and leaves the bests; otherwise the overview and averages come from the log and the bests are improved |
| HookSession.EmptyReturnAgrees | src/hooks/useCubeTimer.js:127-138 | an empty log keeps every best, and the early return gives the same view as the general branch's overview, per-size current averages and kept bests |
| HookSession.KeepBestIdempotent | src/hooks/useCubeTimer.js:125-167 | recomputing the bests from the same log leaves the stored values as they are: the best record is a fixed point of `updateStats` |
| HookSession.SaveSolve | src/hooks/useCubeTimer.js:200-205 | the solve is prepended; no stored best rises; every size the log now reaches has a best |
| HookSession.DeleteSolve | src/hooks/useCubeTimer.js:233-235 | the id is filtered out and no stored best rises or is erased; an emptied log leaves the bests unchanged |
| HookSession.ClearAll | src/hooks/useCubeTimer.js:237-242 | the log is empty and every best is null |
| HookSession.ClearAllShowsNothing | src/hooks/useCubeTimer.js:237-242 | after a clear the statistics show no figures, no averages and no bests |
| HookSession.BestNeverIncreases | src/hooks/useCubeTimer.js:156-163 | over any sequence of saves and deletes, every stored best is kept and never rises |
| HookSession.BestCoversLogPreserved | src/hooks/useCubeTimer.js:156-163 | saves and deletes keep every reached size recorded, at most the log's best window |
| HookSession.BestAtMostCurrentAverage | src/hooks/useCubeTimer.js:152-163 | the stored best is never worse than the current average |
| ArchiveSession.UpdateAverages | archive/script.js:464-496 | each size's best becomes the log's best average, or null when the log is shorter; other keys are unchanged |
| ArchiveSession.UpdateStats | archive/script.js:352-382 | an empty log returns before the bests are touched; otherwise every size's best is the log's best average |
| ArchiveSession.UpdateStatsIdempotent | archive/script.js:464-488 | recomputing from the same log changes nothing |
| ArchiveSession.SaveSolve | archive/script.js:291-305 | the entry is prepended and each best is the new log's best average |
| ArchiveSession.DeleteSolve | archive/script.js:307-312 | the id is filtered out; each best is the new log's best average unless the log became empty, in which case the bests are unchanged |
| ArchiveSession.ClearAll | archive/script.js:314-329 | nothing changes for an empty log or without confirmation; otherwise the log and all bests are emptied |
| ArchiveSession.DeleteCanEraseBest | archive/script.js:468-487 | from five solves with distinct ids, deleting one erases the stored Ao5 |
| ArchiveSession.HookKeepsBestOnDelete | src/hooks/useCubeTimer.js:156-163 | in the same situation the hook keeps its Ao5 |
| ArchiveSession.HookBestAtMostArchiveBest | archive/script.js:474 | on the same log, the hook's stored best is at most the archive's |
| HookTimer.StartPreparing | src/hooks/useCubeTimer.js:170-175 | preparing starts with the current clock as the prepare start |
| HookTimer.StartTimer | src/hooks/useCubeTimer.js:177-185 | running starts with the current clock as the start time |
| HookTimer.Elapsed | src/hooks/useCubeTimer.js:192-193 | the solve is end minus start, and 0 when the start is null or zero |
| HookTimer.StopTimer | src/hooks/useCubeTimer.js:187-209 | outside running nothing happens; from running the timer stops and the elapsed time is the solve |
| HookTimer.ResetToReady | src/hooks/useCubeTimer.js:211-219 | the phase becomes ready and the recorded times are kept |
| HookTimer.Next | src/App.js:54-80 | a key-up never completes a solve |
| HookTimer.IgnoredKeyDown | src/App.js:55 | a key-down that is not space, or is an auto-repeat, changes nothing |
| HookTimer.KeyUpOutsidePreparing | src/App.js:68-72 | a key-up that is not space, or comes outside preparing, changes nothing |
| HookTimer.SpaceDownTransitions | src/App.js:59-65 | a space press goes ready → preparing (recording the start), running → stopped, stopped → ready, and does nothing while preparing |
| HookTimer.SolveIffStopped | src/App.js:54-66 | a solve is completed exactly by a fresh space press while running |
| HookTimer.StartIffHeldLongEnough | src/App.js:72-79 | from preparing, the timer runs exactly on a space release after at least 100 ms; a shorter hold returns to ready |
| HookTimer.StartedByStep | src/hooks/useCubeTimer.js:177-193 | when the clock does not run backwards, a running timer keeps a start time no later than the clock, and a completed solve is non-negative |
| HookTimer.SolvesNonNegative | src/hooks/useCubeTimer.js:192-193 | when the clock does not run backwards, every recorded solve is non-negative over any event sequence |
| HookTimer.QuickTap | src/App.js:68-79 | a tap under 100 ms returns to ready and records nothing |
| HookTimer.FullSolve | src/App.js:54-80 | a worked example, one concrete trace: hold, release and press again record the time from release to press |
| ArchiveTimer.Elapsed | archive/script.js:245-246 | with a start recorded the solve is end minus start; with a null start it is the end reading itself |
| ArchiveTimer.HandleAutoReturn | archive/script.js:257-265 | once the due time has passed the timer shows ready with nothing pending and its other fields unchanged; before that, or with nothing scheduled, it is unchanged |
| ArchiveTimer.StopTimer | archive/script.js:241-258 | outside running nothing happens; from running the timer stops, the elapsed time is the solve, and the return to ready is due 2000 ms later |
| ArchiveTimer.Next | archive/script.js:195-221 | only a key-down completes a solve |
| ArchiveTimer.ConsistentStep | archive/script.js:241-265 | a return to ready is pending exactly while the timer is stopped, after every event |
| ArchiveTimer.StoppedUntilReturn | archive/script.js:202-206 | a stopped timer leaves the stopped phase only when the scheduled return is due |
| ArchiveTimer.HeldKeyIgnored | archive/script.js:195-200 | while space is held, or for another key, a key-down changes nothing |
| ArchiveTimer.FlagFollowsKey | archive/script.js:195-211 | a space key-down sets the held flag and a space key-up clears it |
| ArchiveTimer.SpaceDownTransitions | archive/script.js:202-206 | a fresh space press goes ready → preparing, running → stopped with the elapsed solve, and leaves preparing and stopped as they are |
| ArchiveTimer.StartIffHeldLongEnough | archive/script.js:213-220 | from preparing, the timer runs exactly on a space release after at least 100 ms; a shorter hold returns to ready |
| ArchiveTimer.SolveIffStopped | archive/script.js:195-207 | a solve is completed exactly by a fresh space press while running |
| ArchiveTimer.HeldKeyActsOnce | archive/script.js:198-200 | any run of space key-downs without a release acts as the first one alone |
| ArchiveTimer.StartedByStep | archive/script.js:230-246 | when the clock does not run backwards, a running timer keeps a recorded start no later than the clock, so a completed solve is end minus a real start and is non-negative |
| ArchiveTimer.SolvesNonNegative | archive/script.js:241-258 | when the clock does not run backwards, every solve completed over any event sequence is non-negative |
| HookApp.Step | src/hooks/useCubeTimer.js:199-205 | a completed solve is prepended with the clock reading as its id; otherwise the session is unchanged |
| HookApp.StopRecordsElapsed | src/hooks/useCubeTimer.js:187-205 | stopping a running timer prepends its elapsed time to the log |
| HookApp.StepKeepsValidLog | src/hooks/useCubeTimer.js:187-205 | when the clock does not run backwards, every step keeps all logged solves non-negative |
| ArchiveApp.Step | archive/script.js:253-254 | a completed solve is prepended with the clock reading as its id; otherwise the session is unchanged |
| ArchiveApp.StopRecordsElapsed | archive/script.js:241-258 | stopping prepends end minus start to the log and schedules the return to ready |
| ArchiveApp.StepKeepsValidLog | archive/script.js:241-258 | when the clock does not run backwards, every step keeps all logged solves non-negative |
| Panels.TogglePanel | src/App.js:40-42 | the named panel flips and every other panel keeps its state |
| Panels.AnyVisible | src/App.js:45 | true exactly when some panel is visible |
| Panels.ToggleAll | src/App.js:44-51 | if any panel is visible, all become hidden; if none is, all become visible |
| Panels.VisibilityExtensional | src/App.js:41 | two visibility states that agree on every panel are equal |
| Panels.ToggleTwice | src/App.js:40-42 | toggling a panel twice restores the state |
| Panels.ToggleCommutes | src/App.js:40-42 | toggling two panels gives the same state in either order |
| Panels.ToggleAllAlternates | src/App.js:44-51 | the button alternates between all shown and all hidden, and from a mixed state a second press shows all |
| Chart.Reverse | src/components/stats/PerformanceChart.js:191 | `reverse()` puts element i at position length − 1 − i |
| Chart.ReverseReverse | src/components/stats/PerformanceChart.js:114 | reversing twice gives the original order |
| Chart.IsPersonalBest | src/components/stats/PerformanceChart.js:81-86 | a point is a best exactly when it is strictly below every time before its index (the slice stops at the end), so index 0 is always a best |
| Chart.TieIsNotBest | src/components/stats/PerformanceChart.js:85 | equalling an earlier time is not a new best |
| Chart.BestsDecrease | src/components/stats/PerformanceChart.js:83-85 | in chronological order the flagged times strictly decrease, and the last is the least time so far |
| Chart.FlaggedIsNewMin | src/components/stats/PerformanceChart.js:83-85 | after the first time, a time is flagged exactly when it is below every earlier time, and the least time so far then becomes it |
| Chart.BestsLast | src/components/stats/PerformanceChart.js:83-85 | among the first k > 0 times the last flagged one is their least |
| Chart.Chronological | src/components/stats/PerformanceChart.js:114 | `times.slice().reverse()` lists all times oldest first |
| Chart.ChartWindow | src/components/stats/PerformanceChart.js:191 | the window has min(50, length) points: the newest 50 solves, oldest first |
| Chart.WindowIsSuffix | src/components/stats/PerformanceChart.js:191 | the window is the tail of the chronological log |
| Chart.WindowPosition | src/components/stats/PerformanceChart.js:191 | point k of the window is solve \|log\| − \|window\| + k of the chronological log |
| Chart.FlagsFrom | src/components/stats/PerformanceChart.js:114 | a point's flag compares it with the history before its position in that history |
| Chart.ChartFlags | src/components/stats/PerformanceChart.js:111-114 | the drawn flag of point k compares it with the k oldest solves of the whole log |
| Chart.TrueFlags | src/components/stats/PerformanceChart.js:112-113 | a corrected flag compares each point with every solve before it |
| Chart.FlagsAgreeWithinWindow | src/components/stats/PerformanceChart.js:114 | up to 50 solves the drawn flags are the correct ones |
| Chart.TrueFlagsAreFlagged | src/components/stats/PerformanceChart.js:114 | every real personal best in the window is drawn as one |
| Chart.FlagsMisplaced | src/components/stats/PerformanceChart.js:114 | with 51 solves, the first point is drawn as a best even when the oldest solve was no slower |
| Chart.AxisRange | src/components/stats/PerformanceChart.js:200-206 | no axis for no values; otherwise the range is at least 1 and covers the span, the lower end is not negative, and the upper end is above the maximum; non-negative values lie inside the axis |
| Chart.WindowNonNegative | src/components/stats/PerformanceChart.js:191-192 | the window of a valid log holds no negative time |
| Chart.ChartAxis | src/components/stats/PerformanceChart.js:185-206 | an empty log draws no axis, and every point of a valid log's window lies inside the axis |

## Findings

| source | as written | input that shows it | evidently intended | confidence | as-written member | corrected member |
|---|---|---|---|---|---|---|
| src/components/stats/PerformanceChart.js:114 | each window point's index is compared with the first entries of the whole chronological log | 51 solves where the oldest is no slower than the second oldest: the first point of the window is drawn as a best | compare each point with every solve before it, as the comment at lines 112-113 says | high, not executed | Chart.FlagsMisplaced | Chart.TrueFlags |

The as-written flags are `Chart.ChartFlags`. `Chart.FlagsAgreeWithinWindow`
proves the two flag definitions agree up to 50 solves. `Chart.WindowPosition`
ties `Chart.TrueFlags` to each point's place in the full log.
`Chart.TrueFlagsAreFlagged` proves the drawn flags mark every real best, and
more besides from 51 solves on.

## Left out

- Persistence in `localStorage` and its JSON encoding. The log and the best record are plain values.
- React state, effects and re-rendering. `updateStats` always stores a fresh copy of the best record (src/hooks/useCubeTimer.js:149 and 166). Its callback depends on that record (line 167), and the effect at lines 252-254 calls it again whenever the callback changes. So the hook re-renders without end, and the effect at lines 53-55 rewrites `localStorage` each round. The model does not represent this loop. `HookSession.KeepBestIdempotent` shows only that the stored values stay the same from round to round.
- The `setInterval` display refresh and `currentTime`.
- The archive's `setTimeout`. It becomes the `AutoReturn` event, whose clock reading is compared with the due time.
- The timing of `AutoReturn`. The model lets the event arrive arbitrarily late, and lets other events come first. So it admits traces that the browser's timer would not produce. No lemma depends on when the event arrives.
- Clocks. `Date.now()` and `performance.now()` become the one integer clock reading each event carries, and the solve id is that reading.
- The entry's ISO `date` string, which is presentation only.
- The display strings (`READY`, `HOLD...`) and the timer display's class names.
- The app's `isSpacePressed` state, which is written but never read.
- The interval closure's stale `startTime`, which affects only the live display.
- Floating-point rounding. Averages, medians and the axis use exact reals, and `N * 0.05` is taken as the exact fraction. This agrees with the floating-point `Math.ceil` for the five sizes.
- TimeFormat.FormatTime: takes the already-floored millisecond count as a natural number, with `None` for `null`, `undefined` and `NaN`. The `Math.floor` of a fractional or negative time is not modelled.
- The archive's `isPersonalBest`, which indexes the newest-first log with a window index and has no contract of its own to state.
- The archive's panel and DOM class toggling.
- All canvas drawing, tooltips, hover distances, the trend line and chart animation with its random duration.
- The presentation components: StatsPanel.js, Averages.js, Overview.js, TimesList.js, ConfirmationModal.js, TimerDisplay.js and ActionButton.js.
- The React app has no confirmation before clearing. src/components/stats/TimesList.js:12 calls `onClearAllTimes` directly, and src/components/modals/ConfirmationModal.js is never imported, so `HookSession.ClearAll` has no confirmation input. The archive asks with `confirm` (archive/script.js:318), and the answer is the `confirmed` parameter of `ArchiveSession.ClearAll`.
- ArchiveSession.UpdateAverages: a size without enough solves is modelled as a missing key rather than a key holding `null`. `Bests.Lookup` reads both the same way.
