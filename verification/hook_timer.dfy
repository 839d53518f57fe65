/** The timer of the React app: the phases kept by the hook
    (src/hooks/useCubeTimer.js) and the space-bar handlers of src/App.js that
    drive them. Every event carries the clock reading at which it happens;
    one clock stands for both `Date.now()` and `performance.now()`. */
module HookTimer {
  import opened Wrappers

  datatype Phase = Ready | Preparing | Running | Stopped

  datatype Key = Space | OtherKey

  /** `timerState`, `prepareStartTime` and `startTime`; `None` is the `null`
      a field holds before it is first set. */
  datatype Timer = Timer(phase: Phase, prepareStart: Option<int>, startTime: Option<int>)

  /** A key event as the window listeners see it; `repeat` marks the
      auto-repeat key-downs of a held key. */
  datatype Event = KeyDown(key: Key, repeat: bool, now: int) | KeyUp(key: Key, now: int)

  /** The timer after an event, and the time of the solve the event
      completed, if any. */
  datatype Step = Step(timer: Timer, solve: Option<real>)

  /** How long the space bar must be held before release starts the timer. */
  const MinPrepareTime: int := 100

  const Initial: Timer := Timer(Ready, None, None)

  function StartPreparing(t: Timer, now: int): (r: Timer)
    ensures r.phase == Preparing && r.prepareStart == Some(now) && r.startTime == t.startTime
  {
    Timer(Preparing, Some(now), t.startTime)
  }

  function StartTimer(t: Timer, now: int): (r: Timer)
    ensures r.phase == Running && r.startTime == Some(now) && r.prepareStart == t.prepareStart
  {
    Timer(Running, t.prepareStart, Some(now))
  }

  /** `endTime - (startTime || endTime)`: a null or zero start counts as
      starting now, which makes the solve zero. */
  function Elapsed(startTime: Option<int>, now: int): (d: real)
    ensures startTime.Some? && startTime.value != 0 ==> d == (now - startTime.value) as real
    ensures startTime.None? || startTime == Some(0) ==> d == 0.0
  {
    match startTime
    case Some(start) => if start != 0 then (now - start) as real else 0.0
    case None => 0.0
  }

  /** `stopTimer`: nothing unless running; otherwise the timer stops and
      the elapsed time is the solve to record. */
  function StopTimer(t: Timer, now: int): (r: Step)
    ensures t.phase != Running ==> r == Step(t, None)
    ensures t.phase == Running ==> r.timer == t.(phase := Stopped)
                                   && r.solve == Some(Elapsed(t.startTime, now))
  {
    if t.phase != Running then Step(t, None)
    else Step(t.(phase := Stopped), Some(Elapsed(t.startTime, now)))
  }

  function ResetToReady(t: Timer): (r: Timer)
    ensures r.phase == Ready && r.prepareStart == t.prepareStart && r.startTime == t.startTime
  {
    t.(phase := Ready)
  }

  /** `handleKeyDown`: only a fresh space press acts. From ready it starts
      preparing, while running it stops the timer, from stopped it goes back
      to ready, and while preparing it does nothing. */
  function HandleKeyDown(t: Timer, key: Key, repeat: bool, now: int): Step
  {
    if key != Space || repeat then Step(t, None)
    else
      match t.phase
      case Ready => Step(StartPreparing(t, now), None)
      case Running => StopTimer(t, now)
      case Stopped => Step(ResetToReady(t), None)
      case Preparing => Step(t, None)
  }

  /** `handleKeyUp`: releasing space while preparing starts the timer when
      the key was held at least MinPrepareTime, and otherwise goes back to
      ready. A release in any other phase changes nothing. */
  function HandleKeyUp(t: Timer, key: Key, now: int): Timer
  {
    if key != Space then t
    else if t.phase == Preparing then
      if now - t.prepareStart.GetOr(0) >= MinPrepareTime then StartTimer(t, now)
      else ResetToReady(t)
    else t
  }

  function Next(t: Timer, e: Event): (r: Step)
    ensures e.KeyUp? ==> r.solve.None?
  {
    match e
    case KeyDown(key, repeat, now) => HandleKeyDown(t, key, repeat, now)
    case KeyUp(key, now) => Step(HandleKeyUp(t, key, now), None)
  }

  /** A key other than space, or an auto-repeat, changes nothing. */
  lemma {:induction false} IgnoredKeyDown(t: Timer, key: Key, repeat: bool, now: int)
    requires key != Space || repeat
    ensures Next(t, KeyDown(key, repeat, now)) == Step(t, None)
  {
  }

  /** Only a release of space while preparing can change the phase on key-up. */
  lemma {:induction false} KeyUpOutsidePreparing(t: Timer, key: Key, now: int)
    requires key != Space || t.phase != Preparing
    ensures Next(t, KeyUp(key, now)) == Step(t, None)
  {
  }

  /** The key-down transitions, phase by phase. */
  lemma {:induction false} SpaceDownTransitions(t: Timer, now: int)
    ensures var r := Next(t, KeyDown(Space, false, now));
            (t.phase == Ready ==> r.timer.phase == Preparing && r.timer.prepareStart == Some(now))
            && (t.phase == Running ==> r.timer.phase == Stopped)
            && (t.phase == Stopped ==> r.timer.phase == Ready)
            && (t.phase == Preparing ==> r.timer == t)
  {
  }

  /** A solve is recorded exactly when a fresh space press stops a running
      timer. */
  lemma {:induction false} SolveIffStopped(t: Timer, e: Event)
    ensures Next(t, e).solve.Some? <==> t.phase == Running && e.KeyDown? && e.key == Space && !e.repeat
  {
  }

  /** The timer starts exactly on a release of space after preparing for at
      least MinPrepareTime; a shorter hold goes back to ready. */
  lemma {:induction false} StartIffHeldLongEnough(t: Timer, e: Event)
    requires t.phase == Preparing && t.prepareStart.Some?
    ensures Next(t, e).timer.phase == Running
            <==> e.KeyUp? && e.key == Space && e.now - t.prepareStart.value >= MinPrepareTime
    ensures e.KeyUp? && e.key == Space && e.now - t.prepareStart.value < MinPrepareTime
            ==> Next(t, e) == Step(ResetToReady(t), None)
  {
  }

  /** The phase a timer reaches after a sequence of events, and the solves
      recorded along the way in the order they happened. */
  function Run(t: Timer, events: seq<Event>): (r: (Timer, seq<real>))
    decreases |events|
  {
    if |events| == 0 then (t, [])
    else
      var step := Next(t, events[0]);
      var rest := Run(step.timer, events[1..]);
      if step.solve.Some? then (rest.0, [step.solve.value] + rest.1) else rest
  }

  /** The clock never runs backwards: each event is no earlier than `since`
      and than the event before it. */
  ghost predicate Monotone(events: seq<Event>, since: int)
  {
    (forall i :: 0 <= i < |events| ==> since <= events[i].now)
    && (forall i, j :: 0 <= i < j < |events| ==> events[i].now <= events[j].now)
  }

  /** What holds of every timer the app can reach: a running timer has a
      start time, no later than `clock`, the latest reading seen. */
  ghost predicate StartedBy(t: Timer, clock: int)
  {
    t.phase == Running ==> t.startTime.Some? && t.startTime.value <= clock
  }

  lemma {:induction false} StartedByStep(t: Timer, e: Event, clock: int)
    requires StartedBy(t, clock) && clock <= e.now
    ensures StartedBy(Next(t, e).timer, e.now)
    ensures Next(t, e).solve.Some? ==> Next(t, e).solve.value >= 0.0
  {
  }

  /** Under a clock that never runs backwards, every recorded solve is a
      non-negative duration. */
  lemma {:induction false} SolvesNonNegative(t: Timer, events: seq<Event>, clock: int)
    requires StartedBy(t, clock) && Monotone(events, clock)
    ensures forall x :: x in Run(t, events).1 ==> x >= 0.0
    decreases |events|
  {
    if |events| > 0 {
      var step := Next(t, events[0]);
      StartedByStep(t, events[0], clock);
      assert Monotone(events[1..], events[0].now) by {
        forall i | 0 <= i < |events[1..]|
          ensures events[0].now <= events[1..][i].now
        {
          assert events[1..][i] == events[i + 1];
        }
        forall i, j | 0 <= i < j < |events[1..]|
          ensures events[1..][i].now <= events[1..][j].now
        {
          assert events[1..][i] == events[i + 1] && events[1..][j] == events[j + 1];
        }
      }
      SolvesNonNegative(step.timer, events[1..], events[0].now);
    }
  }

  /** A tap shorter than MinPrepareTime starts nothing and records nothing. */
  lemma {:induction false} QuickTap(down: int, up: int)
    requires 0 <= up - down < MinPrepareTime
    ensures Run(Initial, [KeyDown(Space, false, down), KeyUp(Space, up)])
            == (Timer(Ready, Some(down), None), [])
  {
    var e := [KeyDown(Space, false, down), KeyUp(Space, up)];
    var t1 := Timer(Preparing, Some(down), None);
    var t2 := Timer(Ready, Some(down), None);
    assert Next(Initial, e[0]) == Step(t1, None);
    assert Next(t1, e[1]) == Step(t2, None);
    assert e[1..][0] == e[1] && e[1..][1..] == [];
    assert Run(t2, e[1..][1..]) == (t2, []);
    assert Run(t1, e[1..]) == (t2, []);
  }

  /** A full solve: hold for 150 ms, release at time 1150, press again at
      time 2150; the recorded solve is the 1000 ms between release and press. */
  lemma {:induction false} FullSolve()
    ensures Run(Initial, [KeyDown(Space, false, 1000), KeyUp(Space, 1150), KeyDown(Space, false, 2150)])
            == (Timer(Stopped, Some(1000), Some(1150)), [1000.0])
  {
    var e := [KeyDown(Space, false, 1000), KeyUp(Space, 1150), KeyDown(Space, false, 2150)];
    var t1 := Timer(Preparing, Some(1000), None);
    var t2 := Timer(Running, Some(1000), Some(1150));
    var t3 := Timer(Stopped, Some(1000), Some(1150));
    assert Next(Initial, e[0]) == Step(t1, None);
    assert Next(t1, e[1]) == Step(t2, None);
    assert Next(t2, e[2]) == Step(t3, Some(1000.0));
    assert e[1..][0] == e[1] && e[1..][1..][0] == e[2] && e[1..][1..][1..] == [];
    assert Run(t3, e[1..][1..][1..]) == (t3, []);
    assert [1000.0] + [] == [1000.0];
    assert Run(t2, e[1..][1..]) == (t3, [1000.0]);
    assert Run(t1, e[1..]) == (t3, [1000.0]);
  }
}
