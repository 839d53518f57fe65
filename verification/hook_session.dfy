/** The data side of the React hook (src/hooks/useCubeTimer.js): the solve
    log, the figures `updateStats` derives from it, and the stored best
    average for each window size, which only ever improves until the log is
    cleared. */
module HookSession {
  import opened Wrappers
  import opened SolveLog
  import opened Stats
  import opened Bests

  /** The rule for one size: a candidate replaces the stored best only when
      the stored best is null or the candidate is strictly lower. */
  function KeepLower(stored: Option<real>, candidate: Option<real>): (r: Option<real>)
    ensures r.Some? <==> stored.Some? || candidate.Some?
    ensures r == stored || r == candidate
    ensures stored.Some? ==> r.value <= stored.value
    ensures candidate.Some? ==> r.value <= candidate.value
  {
    if candidate.Some? && (stored.None? || candidate.value < stored.value) then candidate
    else stored
  }

  /** The best-record update of `updateStats`: every size keeps the lower of
      its stored best and the log's best window; other keys are kept. */
  function KeepBest(best: BestRecord, log: Log): (r: BestRecord)
    ensures r.Keys == best.Keys + Reached(log)
    ensures forall n :: n in best ==> r[n] <= best[n]
    ensures forall n :: n in Reached(log) ==> r[n] <= BestAverage(log, n).value
    ensures forall n :: n in r ==> (n in best && r[n] == best[n])
                                   || (n in Reached(log) && Some(r[n]) == BestAverage(log, n))
    ensures forall n :: n in best && n !in AverageSizes ==> r[n] == best[n]
  {
    map n | n in best.Keys + Reached(log) ::
      if n in AverageSizes then KeepLower(Lookup(best, n), BestAverage(log, n)).value
      else best[n]
  }

  /** What the panels show after `updateStats`: the whole-log overview, the
      current average for each of AverageSizes in order, and the bests. */
  datatype StatsView = StatsView(overview: Overview, averages: seq<Option<real>>, best: BestRecord)

  /** `updateStats`: on an empty log every figure and current average is
      null and the bests are left as they are; otherwise the overview and
      current averages come from the log and the bests are improved. */
  function UpdateStats(log: Log, best: BestRecord): (r: StatsView)
    ensures r.overview == OverviewOf(log)
    ensures |r.averages| == |AverageSizes|
    ensures forall i :: 0 <= i < |AverageSizes| ==>
              r.averages[i] == CurrentAverage(log, AverageSizes[i])
    ensures |log| == 0 ==> r.best == best && forall i :: 0 <= i < |r.averages| ==> r.averages[i].None?
    ensures |log| > 0 ==> r.best == KeepBest(best, log)
  {
    if |log| == 0 then
      StatsView(Overview(0, None, None, None, None), seq(5, i => None), best)
    else
      StatsView(OverviewOf(log),
                seq(|AverageSizes|, i requires 0 <= i < |AverageSizes| => CurrentAverage(log, AverageSizes[i])),
                KeepBest(best, log))
  }

  /** The early return on an empty log changes nothing: the general branch
      gives the same view, since an empty log reaches no size and so keeps
      every best. */
  lemma {:induction false} EmptyReturnAgrees(best: BestRecord)
    ensures KeepBest(best, []) == best
    ensures UpdateStats([], best)
            == StatsView(OverviewOf([]),
                         seq(|AverageSizes|, i requires 0 <= i < |AverageSizes| => CurrentAverage([], AverageSizes[i])),
                         KeepBest(best, []))
  {
    assert Reached([]) == {};
  }

  /** The hook recomputes its statistics more than once per change (two
      effects call `updateStats`, and a changed best record re-creates the
      callback); a second run finds nothing left to improve. */
  lemma {:induction false} KeepBestIdempotent(best: BestRecord, log: Log)
    ensures KeepBest(KeepBest(best, log), log) == KeepBest(best, log)
  {
    var once := KeepBest(best, log);
    var twice := KeepBest(once, log);
    assert twice.Keys == once.Keys;
    forall n | n in once
      ensures twice[n] == once[n]
    {
      if n in Reached(log) {
        assert twice[n] <= once[n];
      }
    }
  }

  /** The hook's data state: the log, newest first, and the best record. */
  datatype Session = Session(log: Log, best: BestRecord)

  /** A new entry goes to the front (`stopTimer`, `saveTime`) and the
      statistics are recomputed. */
  function SaveSolve(s: Session, id: int, time: real): (r: Session)
    ensures r.log == Save(s.log, id, time)
    ensures r.best == KeepBest(s.best, r.log)
    ensures forall n :: n in s.best ==> n in r.best && r.best[n] <= s.best[n]
    ensures forall n :: n in AverageSizes && n <= |r.log| ==> n in r.best
  {
    var log := Save(s.log, id, time);
    Session(log, KeepBest(s.best, log))
  }

  /** `deleteTime`: every entry with that id goes, and the statistics are
      recomputed; a best the deleted solve took part in is kept. */
  function DeleteSolve(s: Session, id: int): (r: Session)
    ensures r.log == Delete(s.log, id)
    ensures forall n :: n in s.best ==> n in r.best && r.best[n] <= s.best[n]
    ensures |r.log| > 0 ==> r.best == KeepBest(s.best, r.log)
    ensures |r.log| == 0 ==> r.best == s.best
  {
    var log := Delete(s.log, id);
    Session(log, if |log| == 0 then s.best else KeepBest(s.best, log))
  }

  /** `clearAllTimes`: the log is emptied and all five bests become null. */
  function ClearAll(s: Session): (r: Session)
    ensures |r.log| == 0
    ensures forall n :: Lookup(r.best, n).None?
  {
    Session([], map[])
  }

  /** After clearing, the statistics show nothing at all. */
  lemma {:induction false} ClearAllShowsNothing(s: Session)
    ensures UpdateStats(ClearAll(s).log, ClearAll(s).best)
            == StatsView(Overview(0, None, None, None, None), seq(5, i => None), map[])
  {
  }

  /** Every best the log has reached is recorded and no worse than the log's
      own best window. */
  ghost predicate BestCoversLog(s: Session)
  {
    forall n :: n in Reached(s.log) ==> n in s.best && s.best[n] <= BestAverage(s.log, n).value
  }

  /** The operations of the session other than clearing. */
  datatype Op = SaveOp(id: int, time: real) | DeleteOp(id: int)

  function Apply(s: Session, op: Op): Session
  {
    match op
    case SaveOp(id, time) => SaveSolve(s, id, time)
    case DeleteOp(id) => DeleteSolve(s, id)
  }

  function Run(s: Session, ops: seq<Op>): Session
    decreases |ops|
  {
    if |ops| == 0 then s else Run(Apply(s, ops[0]), ops[1..])
  }

  /** Saving and deleting never raise nor erase a stored best: without a
      clear, every best only improves over any sequence of operations. */
  lemma {:induction false} BestNeverIncreases(s: Session, ops: seq<Op>)
    ensures forall n :: n in s.best ==> n in Run(s, ops).best && Run(s, ops).best[n] <= s.best[n]
    decreases |ops|
  {
    if |ops| > 0 {
      var next := Apply(s, ops[0]);
      assert forall n :: n in s.best ==> n in next.best && next.best[n] <= s.best[n];
      BestNeverIncreases(next, ops[1..]);
    }
  }

  /** Once the log has held N solves, the best for N is at most every Ao-N
      window of the log it holds now, after any later saves and deletes. */
  lemma {:induction false} BestCoversLogPreserved(s: Session, op: Op)
    requires BestCoversLog(s)
    ensures BestCoversLog(Apply(s, op))
  {
    var r := Apply(s, op);
    if |r.log| == 0 {
      assert Reached(r.log) == {};
    }
  }

  /** The recorded best is never worse than the current average. */
  lemma {:induction false} BestAtMostCurrentAverage(s: Session, n: nat)
    requires BestCoversLog(s) && n in AverageSizes && CurrentAverage(s.log, n).Some?
    ensures n in s.best && s.best[n] <= CurrentAverage(s.log, n).value
  {
    BestAtMostCurrent(s.log, n);
    assert n in Reached(s.log);
  }
}
