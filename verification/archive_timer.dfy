/** The timer of the archived single-file version (archive/script.js). It
    differs from the React app's in two ways: a flag ignores every space
    key-down until the key is released, and stopping schedules a return to
    ready 2000 ms later instead of waiting for another press. */
module ArchiveTimer {
  import opened Wrappers
  import HookTimer

  type Phase = HookTimer.Phase
  type Key = HookTimer.Key

  /** `state`, `isSpacePressed`, `prepareStartTime` and `startTime`, plus the
      time the pending `setTimeout(resetToReady, 2000)` is due, if any. */
  datatype Timer = Timer(
    phase: Phase,
    spacePressed: bool,
    prepareStart: Option<int>,
    startTime: Option<int>,
    returnDue: Option<int>)

  /** Key events, and the scheduled callback running at time `now`. */
  datatype Event = KeyDown(key: Key, now: int) | KeyUp(key: Key, now: int) | AutoReturn(now: int)

  datatype Step = Step(timer: Timer, solve: Option<real>)

  const MinPrepareTime: int := 100

  /** The delay before a stopped timer shows ready again. */
  const ReturnDelay: int := 2000

  const Initial: Timer := Timer(HookTimer.Ready, false, None, None, None)

  /** `endTime - startTime`, with a null start read as 0 as JavaScript's
      subtraction does. */
  function Elapsed(startTime: Option<int>, now: int): (d: real)
    ensures startTime.Some? ==> d == (now - startTime.value) as real
    ensures startTime.None? ==> d == now as real
  {
    (now - startTime.GetOr(0)) as real
  }

  /** `stopTimer`: nothing unless running; otherwise stop, record the
      elapsed time and schedule the return to ready. */
  function StopTimer(t: Timer, now: int): (r: Step)
    ensures t.phase != HookTimer.Running ==> r == Step(t, None)
    ensures t.phase == HookTimer.Running ==>
              r.timer == t.(phase := HookTimer.Stopped, returnDue := Some(now + ReturnDelay))
              && r.solve == Some(Elapsed(t.startTime, now))
  {
    if t.phase != HookTimer.Running then Step(t, None)
    else Step(t.(phase := HookTimer.Stopped, returnDue := Some(now + ReturnDelay)),
              Some(Elapsed(t.startTime, now)))
  }

  /** `handleKeyDown`: a key-down while space is held does nothing; a fresh
      space press sets the flag and starts preparing from ready or stops a
      running timer. In the other phases only the flag changes. */
  function HandleKeyDown(t: Timer, key: Key, now: int): Step
  {
    if key != HookTimer.Space || t.spacePressed then Step(t, None)
    else
      var pressed := t.(spacePressed := true);
      match t.phase
      case Ready => Step(pressed.(phase := HookTimer.Preparing, prepareStart := Some(now)), None)
      case Running => StopTimer(pressed, now)
      case _ => Step(pressed, None)
  }

  /** `handleKeyUp`: a space release clears the flag; while preparing it
      starts the timer after a hold of at least MinPrepareTime and otherwise
      goes back to ready. */
  function HandleKeyUp(t: Timer, key: Key, now: int): Timer
  {
    if key != HookTimer.Space then t
    else
      var released := t.(spacePressed := false);
      if t.phase == HookTimer.Preparing then
        if now - t.prepareStart.GetOr(0) >= MinPrepareTime then
          released.(phase := HookTimer.Running, startTime := Some(now))
        else released.(phase := HookTimer.Ready)
      else released
  }

  /** The scheduled `resetToReady` runs once its delay has passed: the
      timer shows ready and nothing is pending any more. Before that, or with
      nothing scheduled, the timer is unchanged. */
  function HandleAutoReturn(t: Timer, now: int): (r: Timer)
    ensures t.returnDue.Some? && now >= t.returnDue.value ==>
              r.phase == HookTimer.Ready && r.returnDue.None?
              && r.spacePressed == t.spacePressed && r.prepareStart == t.prepareStart
              && r.startTime == t.startTime
    ensures t.returnDue.None? || now < t.returnDue.value ==> r == t
  {
    if t.returnDue.Some? && now >= t.returnDue.value then
      t.(phase := HookTimer.Ready, returnDue := None)
    else t
  }

  function Next(t: Timer, e: Event): (r: Step)
    ensures !e.KeyDown? ==> r.solve.None?
  {
    match e
    case KeyDown(key, now) => HandleKeyDown(t, key, now)
    case KeyUp(key, now) => Step(HandleKeyUp(t, key, now), None)
    case AutoReturn(now) => Step(HandleAutoReturn(t, now), None)
  }

  /** A return is pending exactly while the timer is stopped. */
  ghost predicate Consistent(t: Timer)
  {
    t.returnDue.Some? <==> t.phase == HookTimer.Stopped
  }

  lemma {:induction false} ConsistentStep(t: Timer, e: Event)
    requires Consistent(t)
    ensures Consistent(Next(t, e).timer)
  {
  }

  /** Only the scheduled return leaves the stopped phase. */
  lemma {:induction false} StoppedUntilReturn(t: Timer, e: Event)
    requires Consistent(t) && t.phase == HookTimer.Stopped
    ensures Next(t, e).timer.phase != HookTimer.Stopped
            <==> e.AutoReturn? && e.now >= t.returnDue.value
  {
  }

  /** While space is held, further key-downs change nothing. */
  lemma {:induction false} HeldKeyIgnored(t: Timer, key: Key, now: int)
    requires t.spacePressed || key != HookTimer.Space
    ensures Next(t, KeyDown(key, now)) == Step(t, None)
  {
  }

  /** Every space key-down marks the key as held; every space release
      clears it. */
  lemma {:induction false} FlagFollowsKey(t: Timer, now: int)
    ensures Next(t, KeyDown(HookTimer.Space, now)).timer.spacePressed
    ensures !Next(t, KeyUp(HookTimer.Space, now)).timer.spacePressed
  {
  }

  /** The key-down transitions for a fresh press, phase by phase. */
  lemma {:induction false} SpaceDownTransitions(t: Timer, now: int)
    requires !t.spacePressed
    ensures var r := Next(t, KeyDown(HookTimer.Space, now));
            (t.phase == HookTimer.Ready ==> r.timer.phase == HookTimer.Preparing && r.timer.prepareStart == Some(now))
            && (t.phase == HookTimer.Running ==> r.timer.phase == HookTimer.Stopped
                                                 && r.solve == Some(Elapsed(t.startTime, now)))
            && (t.phase == HookTimer.Preparing || t.phase == HookTimer.Stopped ==> r.timer.phase == t.phase)
  {
  }

  /** The timer starts exactly on a release of space after preparing for at
      least MinPrepareTime; a shorter hold goes back to ready. */
  lemma {:induction false} StartIffHeldLongEnough(t: Timer, e: Event)
    requires t.phase == HookTimer.Preparing && t.prepareStart.Some?
    ensures Next(t, e).timer.phase == HookTimer.Running
            <==> e.KeyUp? && e.key == HookTimer.Space && e.now - t.prepareStart.value >= MinPrepareTime
    ensures e.KeyUp? && e.key == HookTimer.Space && e.now - t.prepareStart.value < MinPrepareTime
            ==> Next(t, e).timer.phase == HookTimer.Ready
  {
  }

  /** A solve is recorded exactly when a fresh space press stops a running
      timer. */
  lemma {:induction false} SolveIffStopped(t: Timer, e: Event)
    ensures Next(t, e).solve.Some?
            <==> t.phase == HookTimer.Running && e.KeyDown? && e.key == HookTimer.Space && !t.spacePressed
  {
  }

  /** The timer after a sequence of events. */
  function Run(t: Timer, events: seq<Event>): Timer
    decreases |events|
  {
    if |events| == 0 then t else Run(Next(t, events[0]).timer, events[1..])
  }

  /** A key held down, as the auto-repeat key-downs of the browser deliver
      it: however many space key-downs arrive, only the first one acts. */
  lemma {:induction false} HeldKeyActsOnce(t: Timer, events: seq<Event>)
    requires |events| > 0
    requires forall i :: 0 <= i < |events| ==> events[i].KeyDown? && events[i].key == HookTimer.Space
    ensures Run(t, events) == Next(t, events[0]).timer
    decreases |events|
  {
    var first := Next(t, events[0]).timer;
    FlagFollowsKey(t, events[0].now);
    RestIgnored(first, events[1..]);
  }

  lemma {:induction false} RestIgnored(t: Timer, events: seq<Event>)
    requires t.spacePressed
    requires forall i :: 0 <= i < |events| ==> events[i].KeyDown? && events[i].key == HookTimer.Space
    ensures Run(t, events) == t
    decreases |events|
  {
    if |events| > 0 {
      HeldKeyIgnored(t, events[0].key, events[0].now);
      assert forall i :: 0 <= i < |events[1..]| ==> events[1..][i] == events[i + 1];
      RestIgnored(t, events[1..]);
    }
  }

  /** The solves completed along a sequence of events, in order. */
  function Solves(t: Timer, events: seq<Event>): (r: seq<real>)
    ensures |r| <= |events|
    decreases |events|
  {
    if |events| == 0 then []
    else
      var step := Next(t, events[0]);
      var rest := Solves(step.timer, events[1..]);
      if step.solve.Some? then [step.solve.value] + rest else rest
  }

  /** The clock never runs backwards: each event is no earlier than `since`
      and than the event before it. */
  ghost predicate Monotone(events: seq<Event>, since: int)
  {
    (forall i :: 0 <= i < |events| ==> since <= events[i].now)
    && (forall i, j :: 0 <= i < j < |events| ==> events[i].now <= events[j].now)
  }

  lemma {:induction false} MonotoneTail(events: seq<Event>, since: int)
    requires |events| > 0 && Monotone(events, since)
    ensures since <= events[0].now && Monotone(events[1..], events[0].now)
  {
    forall i | 0 <= i < |events[1..]|
      ensures events[0].now <= events[1..][i].now
    {
      assert events[1..][i] == events[i + 1];
    }
    forall i, j | 0 <= i < j < |events[1..]|
      ensures events[1..][i].now <= events[1..][j].now
    {
      assert events[1..][i] == events[i + 1] && events[1..][j] == events[j + 1];
    }
  }

  /** What holds of every timer the page can reach: a running timer has a
      start time, no later than `clock`, the latest reading seen. */
  ghost predicate StartedBy(t: Timer, clock: int)
  {
    t.phase == HookTimer.Running ==> t.startTime.Some? && t.startTime.value <= clock
  }

  /** Each event keeps StartedBy under a clock that does not run backwards,
      so a solve always has a recorded start (JavaScript's null-as-0 reading
      of `endTime - startTime` never happens) and is a non-negative
      duration. */
  lemma {:induction false} StartedByStep(t: Timer, e: Event, clock: int)
    requires StartedBy(t, clock) && clock <= e.now
    ensures StartedBy(Next(t, e).timer, e.now)
    ensures Next(t, e).solve.Some? ==>
              t.startTime.Some? && Next(t, e).solve.value == (e.now - t.startTime.value) as real
              && Next(t, e).solve.value >= 0.0
  {
  }

  /** Under a clock that never runs backwards, every solve the page records
      is a non-negative duration. */
  lemma {:induction false} SolvesNonNegative(t: Timer, events: seq<Event>, clock: int)
    requires StartedBy(t, clock) && Monotone(events, clock)
    ensures forall x :: x in Solves(t, events) ==> x >= 0.0
    decreases |events|
  {
    if |events| > 0 {
      var step := Next(t, events[0]);
      MonotoneTail(events, clock);
      StartedByStep(t, events[0], clock);
      SolvesNonNegative(step.timer, events[1..], events[0].now);
    }
  }
}
