/** The data side of the archived single-file timer (archive/script.js): the
    same statistics engine, but its stored best average for each size is
    overwritten from the current log on every change instead of only ever
    improving. */
module ArchiveSession {
  import opened Wrappers
  import opened SolveLog
  import opened Stats
  import opened Bests
  import HookSession

  /** `updateAverages`: for each size, the stored best becomes the log's
      best window, or null when the log is shorter than the size; other keys
      are kept. */
  function UpdateAverages(best: BestRecord, log: Log): (r: BestRecord)
    ensures forall n :: n in AverageSizes ==> Lookup(r, n) == BestAverage(log, n)
    ensures forall n :: n !in AverageSizes ==> Lookup(r, n) == Lookup(best, n)
  {
    map n | n in best.Keys + Reached(log) && (n in AverageSizes ==> n in Reached(log)) ::
      if n in AverageSizes then BestAverage(log, n).value else best[n]
  }

  /** `updateStats` returns before `updateAverages` on an empty log, so the
      stored bests are then left as they are. */
  function UpdateStats(best: BestRecord, log: Log): (r: BestRecord)
    ensures |log| == 0 ==> r == best
    ensures |log| > 0 ==> forall n :: n in AverageSizes ==> Lookup(r, n) == BestAverage(log, n)
    ensures forall n :: n !in AverageSizes ==> Lookup(r, n) == Lookup(best, n)
  {
    if |log| == 0 then best else UpdateAverages(best, log)
  }

  /** Recomputing from the same log changes nothing more. */
  lemma {:induction false} UpdateStatsIdempotent(best: BestRecord, log: Log)
    ensures UpdateStats(UpdateStats(best, log), log) == UpdateStats(best, log)
  {
    var once := UpdateStats(best, log);
    var twice := UpdateStats(once, log);
    forall n
      ensures Lookup(twice, n) == Lookup(once, n)
    {
    }
    LookupExtensional(twice, once);
  }

  /** The archive's data state. */
  datatype Session = Session(log: Log, best: BestRecord)

  /** `saveTime`: prepend the entry, then recompute. */
  function SaveSolve(s: Session, id: int, time: real): (r: Session)
    ensures r.log == Save(s.log, id, time)
    ensures forall n :: n in AverageSizes ==> Lookup(r.best, n) == BestAverage(r.log, n)
  {
    var log := Save(s.log, id, time);
    Session(log, UpdateStats(s.best, log))
  }

  /** `deleteTime`: filter out the id, then recompute. */
  function DeleteSolve(s: Session, id: int): (r: Session)
    ensures r.log == Delete(s.log, id)
    ensures |r.log| > 0 ==> forall n :: n in AverageSizes ==> Lookup(r.best, n) == BestAverage(r.log, n)
    ensures |r.log| == 0 ==> r.best == s.best
  {
    var log := Delete(s.log, id);
    Session(log, UpdateStats(s.best, log))
  }

  /** `clearAllTimes`: nothing happens on an empty log or when the user does
      not confirm; otherwise the log and the whole best record are emptied. */
  function ClearAll(s: Session, confirmed: bool): (r: Session)
    ensures |s.log| == 0 || !confirmed ==> r == s
    ensures |s.log| > 0 && confirmed ==> |r.log| == 0 && forall n :: Lookup(r.best, n).None?
  {
    if |s.log| == 0 then s
    else if confirmed then Session([], UpdateStats(map[], []))
    else s
  }

  /** Unlike the hook, deleting a solve can erase a best: from five solves
      with distinct ids, deleting one of them leaves no Ao5. */
  lemma {:induction false} DeleteCanEraseBest(s: Session, id: int)
    requires |s.log| == 5 && UniqueIds(s.log) && HasId(s.log, id)
    requires s.best == UpdateStats(s.best, s.log)
    ensures 5 in s.best
    ensures Lookup(DeleteSolve(s, id).best, 5).None?
  {
    assert Lookup(s.best, 5) == BestAverage(s.log, 5);
    DeleteRemovesOne(s.log, id);
  }

  /** The hook, in the same situation, keeps its recorded Ao5. */
  lemma {:induction false} HookKeepsBestOnDelete(hook: HookSession.Session, id: int)
    requires |hook.log| == 5 && HookSession.BestCoversLog(hook)
    ensures 5 in hook.best
    ensures 5 in HookSession.DeleteSolve(hook, id).best
  {
    assert 5 in Reached(hook.log);
  }

  /** The archive's record is exactly the log's best, so it is never below
      the hook's record, which remembers bests of solves since deleted. */
  lemma {:induction false} HookBestAtMostArchiveBest(hook: HookSession.Session, archive: Session, n: nat)
    requires hook.log == archive.log && |archive.log| > 0 && n in AverageSizes
    requires HookSession.BestCoversLog(hook)
    requires archive.best == UpdateStats(archive.best, archive.log)
    requires Lookup(archive.best, n).Some?
    ensures n in hook.best && hook.best[n] <= archive.best[n]
  {
    assert Lookup(archive.best, n) == BestAverage(archive.log, n);
    assert n in Reached(hook.log);
  }
}
