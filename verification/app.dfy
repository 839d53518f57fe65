/** The React app as a whole: a key event moves the timer, and a solve the
    event completes is saved into the hook's session under the current
    clock reading as its id (`Date.now()`). */
module HookApp {
  import opened Wrappers
  import opened SolveLog
  import HookTimer
  import HookSession

  datatype App = App(timer: HookTimer.Timer, session: HookSession.Session)

  function Step(a: App, e: HookTimer.Event): (r: App)
    ensures r.timer == HookTimer.Next(a.timer, e).timer
    ensures HookTimer.Next(a.timer, e).solve.None? ==> r.session == a.session
    ensures HookTimer.Next(a.timer, e).solve.Some? ==>
              |r.session.log| == |a.session.log| + 1
              && r.session.log[0] == Solve(e.now, HookTimer.Next(a.timer, e).solve.value)
              && r.session.log[1..] == a.session.log
  {
    var step := HookTimer.Next(a.timer, e);
    match step.solve
    case Some(time) => App(step.timer, HookSession.SaveSolve(a.session, e.now, time))
    case None => App(step.timer, a.session)
  }

  /** Stopping a running timer with space adds its elapsed time as the newest
      solve; a release or an ignored key leaves the log alone. */
  lemma {:induction false} StopRecordsElapsed(a: App, now: int)
    requires a.timer.phase == HookTimer.Running
    ensures Step(a, HookTimer.KeyDown(HookTimer.Space, false, now)).session.log
            == [Solve(now, HookTimer.Elapsed(a.timer.startTime, now))] + a.session.log
  {
  }

  /** Under a clock that never runs backwards, a step keeps every logged
      solve non-negative, the fact the statistics and the chart rely on. */
  lemma {:induction false} StepKeepsValidLog(a: App, e: HookTimer.Event, clock: int)
    requires HookTimer.StartedBy(a.timer, clock) && clock <= e.now && ValidLog(a.session.log)
    ensures HookTimer.StartedBy(Step(a, e).timer, e.now)
    ensures ValidLog(Step(a, e).session.log)
  {
  }
}

/** The archived single-file timer as a whole: the same composition, with
    the archive's timer and session. */
module ArchiveApp {
  import opened Wrappers
  import opened SolveLog
  import HookTimer
  import ArchiveTimer
  import ArchiveSession

  datatype App = App(timer: ArchiveTimer.Timer, session: ArchiveSession.Session)

  function Step(a: App, e: ArchiveTimer.Event): (r: App)
    ensures r.timer == ArchiveTimer.Next(a.timer, e).timer
    ensures ArchiveTimer.Next(a.timer, e).solve.None? ==> r.session == a.session
    ensures ArchiveTimer.Next(a.timer, e).solve.Some? ==>
              |r.session.log| == |a.session.log| + 1
              && r.session.log[0] == Solve(e.now, ArchiveTimer.Next(a.timer, e).solve.value)
              && r.session.log[1..] == a.session.log
  {
    var step := ArchiveTimer.Next(a.timer, e);
    match step.solve
    case Some(time) => App(step.timer, ArchiveSession.SaveSolve(a.session, e.now, time))
    case None => App(step.timer, a.session)
  }

  /** Stopping a running timer saves end minus start as the newest solve and
      schedules the return to ready. */
  lemma {:induction false} StopRecordsElapsed(a: App, now: int)
    requires a.timer.phase == HookTimer.Running && !a.timer.spacePressed
    ensures var r := Step(a, ArchiveTimer.KeyDown(HookTimer.Space, now));
            r.session.log == [Solve(now, (now - a.timer.startTime.GetOr(0)) as real)] + a.session.log
            && r.timer.returnDue == Some(now + ArchiveTimer.ReturnDelay)
  {
  }

  /** Under a clock that never runs backwards, a step keeps every logged
      solve non-negative, the fact the statistics and the chart rely on. */
  lemma {:induction false} StepKeepsValidLog(a: App, e: ArchiveTimer.Event, clock: int)
    requires ArchiveTimer.StartedBy(a.timer, clock) && clock <= e.now && ValidLog(a.session.log)
    ensures ArchiveTimer.StartedBy(Step(a, e).timer, e.now)
    ensures ValidLog(Step(a, e).session.log)
  {
  }
}
