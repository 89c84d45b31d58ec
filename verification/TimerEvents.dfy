/** What the tracer does to the emulated timers at a stop is an event of their runs, so what
    holds of every run of the timers holds under the tracer. */
module TimerEvents {
  import opened TimeMath
  import opened TimerFd
  import opened TimerRuns
  import opened Takeover

  /** The event a stop amounts to. */
  function EventOf(op: TimerOp): Event
    requires !op.NoOp?
  {
    match op
    case CloseFd(fd) => Closed(fd)
    case SetFd(fd, abstime, interval, value) => Set(fd, abstime, interval, value)
    case CreateFd(fd, clockid) => Created(fd, clockid)
  }

  /** The observer's record after such an event. */
  function After(w: World, s: State, op: TimerOp): World {
    match op
    case NoOp => w
    case CloseFd(fd) => w.(s := s, armings := w.armings - {fd})
    case CreateFd(fd, _) => w.(s := s, armings := w.armings - {fd})
    case SetFd(fd, abstime, interval, value) =>
      var arming := Arming(DeadlineFor(abstime, value, w.clock.now), interval, 0, 0, 0);
      w.(s := s, lastArm := Nanos(w.clock.now), armings := w.armings[fd := arming])
  }

  lemma StopIsEvent(w: World, s: State, op: TimerOp)
    requires WellFormed(w) && TimerOpDone(w.s, s, op, w.clock)
    requires op.SetFd? ==> Valid(op.interval) && Valid(op.value)
    ensures After(w, s, op).s == s
    ensures !op.NoOp? ==> Step(w, EventOf(op), After(w, s, op))
  {
  }

  /** So the invariant of the runs survives every stop the tracer handles. */
  lemma StopKeepsTimers(w: World, s: State, op: TimerOp)
    requires Inv(w) && TimerOpDone(w.s, s, op, w.clock)
    requires op.SetFd? ==> Valid(op.interval) && Valid(op.value)
    ensures Inv(After(w, s, op))
  {
    hide TimerOpDone;
    hide Inv;
    assert WellFormed(w) by { WellFormedWhenInv(w); }
    StopIsEvent(w, s, op);
    if !op.NoOp? {
      StepKeepsInv(w, EventOf(op), After(w, s, op));
    }
  }

  lemma WellFormedWhenInv(w: World)
    requires Inv(w)
    ensures WellFormed(w)
  {
  }
}
