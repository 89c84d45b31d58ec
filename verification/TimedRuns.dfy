/** Runs of the tracer together with the timers it keeps: every interleaving of its tracees'
    stops, births and deaths with alarms, ticks and the passing of time. */
module TimedRuns {
  import opened TraceeMemory
  import opened Words
  import opened PtraceKernel
  import opened Sequences
  import opened TimeMath
  import opened Takeover
  import opened Supervision
  import opened Protocol
  import R = Runs
  import T = TimerRuns
  import L = TimerEvents
  import TimerFd

  /** The tracees and what is remembered of them, and the timers. An observer remembers which
      tracee made each timer. */
  datatype Whole = Whole(s: Sys, w: T.World, makers: map<int, Pid>)

  /** Something happens to a tracee, or to the timers alone. */
  datatype Turn = Tracee(ev: Event) | Timers(change: T.Event)

  /** The interval timer goes off, the tick before a wait, and time. */
  predicate Alone(ev: T.Event) { ev.Fired? || ev.Tick? || ev.Later? }

  /** What a stop does to the timers. */
  function OpOf(c: Config, s: Sys, ev: Event): TimerOp
    requires ev.Stops?
  {
    StopOp(c, ViewIn(s, ev.pid), ev.q, ev.stop, s.sequence, ev.out)
  }

  /** Clock and timers are looked at as they are. */
  predicate LooksUp(w: T.World, ev: Event)
    requires ev.Stops?
  {
    ev.out.clock == w.clock && ev.out.timer == TimerNamed(w.s.timers, Signed(ev.q.regs.rdi))
  }

  ghost predicate StopTurn(c: Config, x: Whole, ev: Event, y: Whole)
    requires ev.Stops?
  {
    var op := OpOf(c, x.s, ev);
    && LooksUp(x.w, ev)
    && (op.SetFd? ==> Valid(op.interval) && Valid(op.value))
    && TimerOpDone(x.w.s, y.w.s, op, x.w.clock) && y.w == L.After(x.w, y.w.s, op)
    && y.makers == if op.CreateFd? then x.makers[op.fd := ev.pid] else x.makers
  }

  ghost predicate Turns(c: Config, x: Whole, turn: Turn, y: Whole) {
    match turn
    case Timers(ev) => Alone(ev) && T.Step(x.w, ev, y.w) && y.s == x.s && y.makers == x.makers
    case Tracee(ev) =>
      && Happens(c, x.s, ev, y.s)
      && if ev.Stops? then StopTurn(c, x, ev, y) else y.w == x.w && y.makers == x.makers
  }

  ghost predicate IsTimedRun(c: Config, xs: seq<Whole>, turns: seq<Turn>) {
    && |xs| == |turns| + 1
    && Initial(c, xs[0].s) && xs[0].w == T.Initially(xs[0].w.clock.known) && xs[0].makers == map[]
    && forall i :: 0 <= i < |turns| ==> Turns(c, xs[i], turns[i], xs[i + 1])
  }

  ghost predicate Inv(c: Config, x: Whole) { R.Inv(c, x.s) && T.Inv(x.w) }

  lemma TurnKeepsInv(c: Config, x: Whole, turn: Turn, y: Whole)
    requires Inv(c, x) && Turns(c, x, turn, y)
    ensures Inv(c, y)
  {
    hide R.Inv;
    hide T.Inv;
    hide T.Step;
    hide Happens;
    hide TimerOpDone;
    hide OpOf;
    match turn
    case Timers(ev) => T.StepKeepsInv(x.w, ev, y.w);
    case Tracee(ev) =>
      R.StepKeepsInv(c, x.s, ev, y.s);
      if ev.Stops? {
        L.StopKeepsTimers(x.w, y.w.s, OpOf(c, x.s, ev));
      }
  }

  lemma {:induction false} TimedRunKeepsInv(c: Config, xs: seq<Whole>, turns: seq<Turn>, i: nat)
    requires IsTimedRun(c, xs, turns) && i < |xs|
    ensures Inv(c, xs[i])
  {
    hide R.Inv;
    hide Turns;
    if i == 0 {
      R.InitialInv(c, xs[0].s);
    } else {
      TimedRunKeepsInv(c, xs, turns, i - 1);
      TurnKeepsInv(c, xs[i - 1], turns[i - 1], xs[i]);
    }
  }

  /** What the tracees and the tracer do in such a run is a run of theirs. */
  lemma {:induction false} TracerRun(c: Config, xs: seq<Whole>, turns: seq<Turn>, i: nat)
    returns (ss: seq<Sys>, evs: seq<Event>)
    requires IsTimedRun(c, xs, turns) && i < |xs|
    ensures IsRun(c, ss, evs) && ss[|evs|] == xs[i].s
  {
    hide StopTurn;
    hide T.Step;
    hide Initial;
    if i == 0 {
      ss, evs := [xs[0].s], [];
    } else {
      ss, evs := TracerRun(c, xs, turns, i - 1);
      assert Turns(c, xs[i - 1], turns[i - 1], xs[i]);
      if turns[i - 1].Tracee? {
        R.RunExtends(c, ss, evs, turns[i - 1].ev, xs[i].s);
        ss, evs := ss + [xs[i].s], evs + [turns[i - 1].ev];
      }
    }
  }

  /** Under the tracer too a timer is tracked exactly when its write end is held, every pending
      deadline is covered, and no interval timer drifts. */
  lemma TimersUnderTracer(c: Config, xs: seq<Whole>, turns: seq<Turn>, i: nat, fd: int)
    requires IsTimedRun(c, xs, turns) && i < |xs|
    ensures var w := xs[i].w;
            && w.s.timers.Keys == w.s.writeEnds
            && (fd in w.s.timers && TimerFd.Counts(w.s.timers[fd], w.clock) ==>
                  T.InTime(w, w.s.timers[fd].deadline.value))
            && (T.Pending(w.s.timers, fd) && w.s.timers[fd].interval != ZERO ==>
                  fd in w.armings && T.Undrifted(w.s.timers[fd], w.armings[fd]))
  {
    hide IsTimedRun;
    hide R.Inv;
    hide T.InTime;
    hide T.Undrifted;
    TimedRunKeepsInv(c, xs, turns, i);
    var w := xs[i].w;
    if T.Pending(w.s.timers, fd) {
      if TimerFd.Counts(w.s.timers[fd], w.clock) {
        T.InTimeWhenInv(w, fd);
      }
      if w.s.timers[fd].interval != ZERO {
        T.UndriftedWhenInv(w, fd);
      }
    }
  }

  /** The application's own entry stop, of a 64-bit tracee, with this number and this fd. */
  predicate Enters(v: View, q: Proc, nr: U64, fd: int) {
    v.active.None? && !v.inSyscall && q.regs.cs == CS_64 && q.regs.origRax == nr && Signed(q.regs.rdi) == fd
  }

  /** A setting that turns the timer off, taken over: it can be read, and the one before it
      reported. */
  predicate TurnsOff(q: Proc, out: Outside) {
    && out.timer.Some? && ReadSpec(q.mem, q.regs.rdx, 32).Some?
    && ReadTime(ReadSpec(q.mem, q.regs.rdx, 32).value, 16) == ZERO
    && OldReported(q.regs.r10, q.mem, out.timer.value, out.clock).0
  }

  /** The exit of a pipe call of the tracer's, with the fd as its read end. */
  predicate Adopts(v: View, q: Proc, out: Outside, fd: int) {
    && v.active.Some?
    && var captured := PipeCapture(v.active.value, q.mem, out.reopened); captured.Some? && captured.value.0 == fd
  }

  /** A tracee closes the fd, turns the timer off, or gets a new pipe on the fd. */
  predicate TraceeEnds(c: Config, s: Sys, ev: Event, fd: int)
    requires ev.Stops?
  {
    var v := ViewIn(s, ev.pid);
    && ev.stop.SyscallStop? && c.mode != Filtered
    && (|| Enters(v, ev.q, SYS_CLOSE, fd)
        || (Enters(v, ev.q, SYS_TIMERFD_SETTIME, fd) && TurnsOff(ev.q, ev.out))
        || Adopts(v, ev.q, ev.out, fd))
  }

  /** This turn ends a pending deadline. */
  ghost predicate EndsDeadline(c: Config, x: Whole, turn: Turn, fd: int) {
    match turn
    case Timers(ev) => T.EndsDeadline(x.w, ev, fd)
    case Tracee(ev) => ev.Stops? && TraceeEnds(c, x.s, ev, fd)
  }

  /** A deadline goes away exactly when it is written, or its reader has gone, or a tracee
      closes the fd, turns the timer off, or gets a new pipe on it. A death ends none. */
  lemma DeadlinesEnd(c: Config, xs: seq<Whole>, turns: seq<Turn>, i: nat, fd: int)
    requires IsTimedRun(c, xs, turns) && i < |turns| && T.Pending(xs[i].w.s.timers, fd)
    ensures EndsDeadline(c, xs[i], turns[i], fd) <==> !T.Pending(xs[i + 1].w.s.timers, fd)
  {
    hide Happens;
    hide R.Inv;
    hide T.Inv;
    hide T.Step;
    hide T.EndsDeadline;
    hide TimerOpDone;
    hide OpOf;
    hide TraceeEnds;
    var x, y := xs[i], xs[i + 1];
    TimedRunKeepsInv(c, xs, turns, i);
    assert Turns(c, x, turns[i], y);
    match turns[i]
    case Timers(ev) => T.StepEndsDeadline(x.w, ev, y.w, fd);
    case Tracee(ev) =>
      if ev.Stops? {
        StopEndsDeadline(x.w, y.w, OpOf(c, x.s, ev), fd);
        OpsThatEnd(c, x, ev, fd);
      }
  }

  lemma StopEndsDeadline(w: T.World, w': T.World, op: TimerOp, fd: int)
    requires T.Inv(w) && T.Pending(w.s.timers, fd)
    requires op.SetFd? ==> Valid(op.interval) && Valid(op.value)
    requires TimerOpDone(w.s, w'.s, op, w.clock) && w' == L.After(w, w'.s, op)
    ensures !op.NoOp? && T.EndsDeadline(w, L.EventOf(op), fd) <==> !T.Pending(w'.s.timers, fd)
  {
    hide T.Inv;
    hide T.EndsDeadline;
    L.WellFormedWhenInv(w);
    L.StopIsEvent(w, w'.s, op);
    if !op.NoOp? {
      T.StepEndsDeadline(w, L.EventOf(op), w', fd);
    }
  }

  /** What a stop does to the timers ends a deadline exactly at one of these. */
  lemma OpsThatEnd(c: Config, x: Whole, ev: Event, fd: int)
    requires ev.Stops? && LooksUp(x.w, ev) && fd in x.w.s.timers
    ensures var op := OpOf(c, x.s, ev);
            !op.NoOp? && T.EndsDeadline(x.w, L.EventOf(op), fd) <==> TraceeEnds(c, x.s, ev, fd)
  {
    hide ReadSpec;
    hide OldReported;
    hide Captured;
  }
}
