/** timerfd_settime and timerfd_gettime as the application sees them: the timer is what the caller's
    bytes say, and what it asks for is what it set. */
module TimerCalls {
  import opened Options
  import opened TraceeMemory
  import opened Words
  import opened PtraceKernel
  import opened Sequences
  import opened TimeMath
  import opened Takeover
  import opened Supervision
  import opened StopShapes
  import opened Protocol
  import opened TimedRuns
  import M = EmulationScripts
  import R = Runs
  import T = TimerRuns
  import TimerFd

  /** A tracee enters this call for this fd, and it is taken over. */
  ghost predicate TakesOver(c: Config, x: Whole, turn: Turn, y: Whole, nr: U64, fd: int) {
    && c.mode == EverySyscall && Turns(c, x, turn, y) && turn.Tracee? && turn.ev.Stops?
    && turn.ev.stop == SyscallStop && Enters(ViewIn(x.s, turn.ev.pid), turn.ev.q, nr, fd)
    && turn.ev.pid in y.s.procs && ViewIn(y.s, turn.ev.pid).active.Some?
  }

  /** The first deadline of a setting: none, the point in time itself, or one counted from now. */
  function FirstDeadline(flags: U64, value: Time, now: Time): Option<Time> {
    if value == ZERO then None else if flags % 2 == 1 then Some(value) else Some(Add(now, value))
  }

  /** At this address there is an itimerspec of this interval and of what is left. */
  predicate Reports(mem: Memory, at: U64, interval: Time, left: Time) {
    var spec := ReadSpec(mem, at, 32);
    spec.Some? && ReadTime(spec.value, 0) == interval && ReadTime(spec.value, 16) == left
  }

  /** What is left of a deadline, by the clock or, when that cannot be read, from the start of
      time. */
  predicate LeftOf(t: TimerFd.Timer, clock: TimerFd.Clock, left: Time) {
    var now := if t.clockid in clock.known then clock.now else ZERO;
    match t.deadline
    case None => left == ZERO
    case Some(d) =>
      if HasPassed(d, now) then left == ZERO
      else Nanos(left) == Nanos(d) - Nanos(now) && (Valid(d) && Valid(now) ==> Valid(left))
  }

  lemma LeftIsLeft(t: TimerFd.Timer, clock: TimerFd.Clock)
    ensures LeftOf(t, clock, TimeLeft(t, Reading(t, clock)))
  {
    if t.deadline.Some? {
      SubKeepsNanos(t.deadline.value, Reading(t, clock));
      if Valid(t.deadline.value) && Valid(Reading(t, clock)) {
        SubIsNanos(t.deadline.value, Reading(t, clock));
      }
    }
  }

  lemma WrittenReports(mem: Memory, at: U64, t: TimerFd.Timer, now: Time)
    requires Fits(t.interval) && Fits(TimeLeft(t, now)) && WriteSpec(mem, at, CurrentSetting(t, now)).0
    ensures Reports(WriteSpec(mem, at, CurrentSetting(t, now)).1, at, t.interval, TimeLeft(t, now))
  {
    SettingRoundTrip(t, now);
    hide ReadTime;
    hide TimeBytes;
    WrittenIsRead(mem, at, CurrentSetting(t, now));
  }

  /** An entry that is taken over is left as the takeover leaves it. */
  lemma TakenIsBegun(m: Moment)
    requires m.c.mode == EverySyscall && m.stop == SyscallStop && m.v.active.None? && AfterStop(m).view.active.Some?
    ensures var b := Begin(m.c.env, m.pid, m.n, m.q.regs, m.q.mem, !m.v.inSyscall, m.out);
            && b.active.Some? && AfterStop(m).view == m.v.(active := b.active)
            && AfterStop(m).proc == Resumed(m.q.(regs := b.regs, mem := b.mem), SyscallTrace, None)
  {
    hide Begin;
    hide OnSyscallStop;
    var b := Begin(m.c.env, m.pid, m.n, m.q.regs, m.q.mem, !m.v.inSyscall, m.out);
    OwnStopStartsNothing(m.c.env, m.v, m.q.(regs := b.regs, mem := b.mem), m.out, m.filled);
  }

  lemma TurnIsBegun(c: Config, x: Whole, turn: Turn, y: Whole, nr: U64, fd: int)
    requires TakesOver(c, x, turn, y, nr, fd)
    ensures turn.ev.pid in x.s.procs
    ensures var ev, v := turn.ev, ViewIn(x.s, turn.ev.pid);
            var b := Begin(c.env, ev.pid, x.s.sequence, ev.q.regs, ev.q.mem, true, ev.out);
            && b.active.Some? && ViewIn(y.s, ev.pid).active == b.active && y.s.procs[ev.pid].mem == b.mem
            && StopTurn(c, x, ev, y)
  {
    hide RunsTo;
    hide FillMatches;
    hide Handle;
    hide Observed;
    hide StopTurn;
    TakenIsBegun(MomentOf(c, x.s, turn.ev));
    hide Begin;
  }

  /** A setting that is taken over sets the timer of its fd, and no other, to what the 32 bytes at
      rdx say. */
  lemma SettingTakes(c: Config, x: Whole, turn: Turn, y: Whole, fd: int)
    requires TakesOver(c, x, turn, y, SYS_TIMERFD_SETTIME, fd)
    ensures fd in x.w.s.timers && ReadSpec(turn.ev.q.mem, turn.ev.q.regs.rdx, 32).Some?
    ensures var b, t := ReadSpec(turn.ev.q.mem, turn.ev.q.regs.rdx, 32).value, x.w.s.timers[fd];
            && y.w.s.timers == x.w.s.timers[fd := TimerFd.Timer(
                 t.clockid, FirstDeadline(turn.ev.q.regs.rsi, ReadTime(b, 16), x.w.clock.now), ReadTime(b, 0))]
            && ViewIn(y.s, turn.ev.pid).active == Some(Fixup(0))
            && Valid(ReadTime(b, 0)) && Valid(ReadTime(b, 16))
  {
    TurnIsBegun(c, x, turn, y, SYS_TIMERFD_SETTIME, fd);
    hide TakesOver;
    hide ReadTime;
    hide ReadSpec;
    hide OldReported;
    hide TimerFd.ArmedFor;
  }

  /** The setting before it is at r10, where that is asked for. */
  lemma SettingReportsOld(c: Config, x: Whole, turn: Turn, y: Whole, fd: int)
    requires TakesOver(c, x, turn, y, SYS_TIMERFD_SETTIME, fd) && fd in x.w.s.timers
    requires var t := x.w.s.timers[fd]; Fits(t.interval) && Fits(TimeLeft(t, Reading(t, x.w.clock)))
    ensures turn.ev.pid in y.s.procs
    ensures var at, mem, t := turn.ev.q.regs.r10, y.s.procs[turn.ev.pid].mem, x.w.s.timers[fd];
            && (at == 0 ==> mem == turn.ev.q.mem)
            && (at != 0 ==> exists left :: Reports(mem, at, t.interval, left) && LeftOf(t, x.w.clock, left))
  {
    TurnIsBegun(c, x, turn, y, SYS_TIMERFD_SETTIME, fd);
    var at, t := turn.ev.q.regs.r10, x.w.s.timers[fd];
    hide TakesOver;
    hide ReadSpec;
    hide ReadTime;
    hide CurrentSetting;
    hide WriteSpec;
    hide TimeLeft;
    hide LeftOf;
    hide Reports;
    LeftIsLeft(t, x.w.clock);
    if at != 0 {
      WrittenReports(turn.ev.q.mem, at, t, Reading(t, x.w.clock));
      assert Reports(y.s.procs[turn.ev.pid].mem, at, t.interval, TimeLeft(t, Reading(t, x.w.clock)));
    }
  }

  /** A gettime that is taken over puts the timer's interval and what is left of its deadline where
      rsi says, and leaves the timers alone. */
  lemma GettimeReports(c: Config, x: Whole, turn: Turn, y: Whole, fd: int)
    requires TakesOver(c, x, turn, y, SYS_TIMERFD_GETTIME, fd) && fd in x.w.s.timers
    requires var t := x.w.s.timers[fd]; Fits(t.interval) && Fits(TimeLeft(t, Reading(t, x.w.clock)))
    ensures turn.ev.pid in y.s.procs && y.w == x.w && ViewIn(y.s, turn.ev.pid).active == Some(Fixup(0))
    ensures var mem, t := y.s.procs[turn.ev.pid].mem, x.w.s.timers[fd];
            exists left :: Reports(mem, turn.ev.q.regs.rsi, t.interval, left) && LeftOf(t, x.w.clock, left)
  {
    TurnIsBegun(c, x, turn, y, SYS_TIMERFD_GETTIME, fd);
    var at, t := turn.ev.q.regs.rsi, x.w.s.timers[fd];
    hide TakesOver;
    hide ReadSpec;
    hide ReadTime;
    hide CurrentSetting;
    hide WriteSpec;
    hide TimeLeft;
    hide LeftOf;
    hide Reports;
    LeftIsLeft(t, x.w.clock);
    WrittenReports(turn.ev.q.mem, at, t, Reading(t, x.w.clock));
    assert Reports(y.s.procs[turn.ev.pid].mem, at, t.interval, TimeLeft(t, Reading(t, x.w.clock)));
  }

  /** The clock never goes back, and what it knows stays the same. */
  lemma TurnMovesOn(c: Config, x: Whole, turn: Turn, y: Whole)
    requires Turns(c, x, turn, y) && Valid(x.w.clock.now)
    ensures Valid(y.w.clock.now) && y.w.clock.known == x.w.clock.known
    ensures Nanos(x.w.clock.now) <= Nanos(y.w.clock.now)
  {
    hide Happens;
    hide TimerOpDone;
    hide OpOf;
    if turn.Timers? && turn.change.Later? {
      OrderIsNanos(turn.change.to, x.w.clock.now);
    }
  }

  lemma {:induction false} ClockMovesOn(c: Config, xs: seq<Whole>, turns: seq<Turn>, i: nat, j: nat)
    requires IsTimedRun(c, xs, turns) && i <= j < |xs|
    ensures Valid(xs[i].w.clock.now) && Valid(xs[j].w.clock.now) && xs[j].w.clock.known == xs[i].w.clock.known
    ensures Nanos(xs[i].w.clock.now) <= Nanos(xs[j].w.clock.now)
    decreases j
  {
    hide Turns;
    if i < j {
      ClockMovesOn(c, xs, turns, i, j - 1);
      TurnMovesOn(c, xs[j - 1], turns[j - 1], xs[j]);
    } else if j > 0 {
      ClockMovesOn(c, xs, turns, i - 1, j - 1);
      TurnMovesOn(c, xs[j - 1], turns[j - 1], xs[j]);
    }
  }

  function Floored(x: int): nat { if x > 0 then x else 0 }

  /** What is left of a value that was set at `from`, at `now`. */
  function LeftOfValue(flags: U64, value: Time, from: Time, now: Time): nat {
    if value == ZERO then 0
    else if flags % 2 == 1 then Floored(Nanos(value) - Nanos(now))
    else Floored(Nanos(value) - (Nanos(now) - Nanos(from)))
  }

  lemma LeftIsOfValue(t: TimerFd.Timer, flags: U64, value: Time, from: Time, clock: TimerFd.Clock, left: Time)
    requires t.deadline == FirstDeadline(flags, value, from) && t.clockid in clock.known
    requires Valid(value) && Valid(from) && Valid(clock.now) && Nanos(from) <= Nanos(clock.now)
    requires LeftOf(t, clock, left)
    ensures Valid(left) && Nanos(left) == LeftOfValue(flags, value, from, clock.now) && left.seconds <= value.seconds
  {
    AddIsNanos(from, value);
    if t.deadline.Some? {
      SubIsNanos(t.deadline.value, clock.now);
    }
  }

  /** In every run: a gettime finds the interval that the last setting gave, and what is left of its
      value: of a relative one less by the time since, of an absolute one what is still to come. */
  lemma GettimeFindsSetting(c: Config, xs: seq<Whole>, turns: seq<Turn>, i: nat, j: nat, fd: int)
    requires IsTimedRun(c, xs, turns) && i < j < |turns|
    requires TakesOver(c, xs[i], turns[i], xs[i + 1], SYS_TIMERFD_SETTIME, fd)
    requires TakesOver(c, xs[j], turns[j], xs[j + 1], SYS_TIMERFD_GETTIME, fd)
    requires fd in xs[i + 1].w.s.timers && fd in xs[j].w.s.timers
    requires xs[j].w.s.timers[fd] == xs[i + 1].w.s.timers[fd] && xs[j].w.s.timers[fd].clockid in xs[j].w.clock.known
    ensures ReadSpec(turns[i].ev.q.mem, turns[i].ev.q.regs.rdx, 32).Some? && turns[j].ev.pid in xs[j + 1].s.procs
    ensures var b, mem := ReadSpec(turns[i].ev.q.mem, turns[i].ev.q.regs.rdx, 32).value,
                          xs[j + 1].s.procs[turns[j].ev.pid].mem;
            exists left :: Reports(mem, turns[j].ev.q.regs.rsi, ReadTime(b, 0), left)
                           && Nanos(left) == LeftOfValue(turns[i].ev.q.regs.rsi, ReadTime(b, 16), xs[i].w.clock.now,
                                                         xs[j].w.clock.now)
  {
    hide Turns;
    hide Enters;
    hide T.Initially;
    hide ReadTime;
    hide Reports;
    hide LeftOf;
    hide LeftOfValue;
    hide FirstDeadline;
    SettingTakes(c, xs[i], turns[i], xs[i + 1], fd);
    ClockMovesOn(c, xs, turns, i, j);
    var b := ReadSpec(turns[i].ev.q.mem, turns[i].ev.q.regs.rdx, 32).value;
    var t, clock := xs[j].w.s.timers[fd], xs[j].w.clock;
    var flags, value, from := turns[i].ev.q.regs.rsi, ReadTime(b, 16), xs[i].w.clock.now;
    hide ReadSpec;
    LeftIsLeft(t, clock);
    LeftIsOfValue(t, flags, value, from, clock, TimeLeft(t, Reading(t, clock)));
    ReadTimeFits(b);
    hide TimeLeft;
    hide Reading;
    GettimeReports(c, xs[j], turns[j], xs[j + 1], fd);
    var mem := xs[j + 1].s.procs[turns[j].ev.pid].mem;
    var left :| Reports(mem, turns[j].ev.q.regs.rsi, t.interval, left) && LeftOf(t, clock, left);
    LeftIsOfValue(t, flags, value, from, clock, left);
  }

  lemma ReadTimeFits(b: seq<Byte>)
    requires |b| == 32
    ensures Fits(ReadTime(b, 0)) && Fits(ReadTime(b, 16))
  {
  }

  lemma EndsAreRead(mem: Memory, at: U64, r: nat, w: nat)
    requires r < 0x8000_0000 && w < 0x8000_0000 && ReadSpec(mem, at, 8) == Some(ToBytes(r, 4) + ToBytes(w, 4))
    ensures PipeFds(mem, at) == Some((r, w))
  {
    assert Power256(2) == 65536 && Power256(4) == 65536 * Power256(2);
    BytesRoundTrip(r, 4);
    BytesRoundTrip(w, 4);
    var a, b := ToBytes(r, 4), ToBytes(w, 4);
    assert (a + b)[0..4] == a && (a + b)[4..8] == b;
    hide ToBytes;
    hide FromBytes;
  }

  /** The exit of the pipe call of a timerfd_create, undisturbed so far. */
  ghost predicate PipeReturns(c: Config, x: Whole, turn: Turn) {
    && c.mode == EverySyscall && turn.Tracee? && turn.ev.Stops? && turn.ev.stop == SyscallStop
    && turn.ev.pid in x.s.procs
    && var v, taken := ViewIn(x.s, turn.ev.pid), SeenIn(x.s, turn.ev.pid).taken;
    && v.active.Some? && v.active.value.Sequence? && !v.active.value.atEntry
    && taken.Some? && !taken.value.disturbed && taken.value.ran == []
    && taken.value.entry.regs.origRax == SYS_TIMERFD_CREATE
  }

  lemma PipeTurn(c: Config, x: Whole, ev: Event, y: Whole, r: I64, w: I64)
    requires Turns(c, x, Tracee(ev), y) && PipeReturns(c, x, Tracee(ev)) && ev.out.reopened
    requires var a := ViewIn(x.s, ev.pid).active.value;
             a.running.Some? && a.running.value.Pipe? && PipeFds(ev.q.mem, a.running.value.buffer) == Some((r, w))
    ensures var a := ViewIn(x.s, ev.pid).active.value;
            && y.w.s.timers == x.w.s.timers[r := TimerFd.Timer(a.clockid, None, ZERO)]
            && y.w.s.writeEnds == x.w.s.writeEnds + {r}
    ensures var v := ViewIn(y.s, ev.pid);
            v.active.Some? ==> v.active.value.Sequence? && M.FdsOf(v.active.value) == M.Fds(r, r, w)
  {
    hide RunsTo;
    hide FillMatches;
    hide Observed;
    hide PipeFds;
    hide Remaining;
    hide Build;
    hide Answer;
  }

  lemma PipeIsRunning(env: Env, pid: Pid, v: View, taken: Option<Taken>)
    requires M.Inv(env, pid, v, taken) && v.active.Some? && v.active.value.Sequence?
    requires taken.Some? && !taken.value.disturbed && taken.value.ran == []
    requires taken.value.entry.regs.origRax == SYS_TIMERFD_CREATE
    ensures var a := v.active.value;
            && a.saved == taken.value.entry.regs && a.running == Some(Pipe(Scratch(a.saved.rsp)))
            && a.clockid == AsI32(ReplacedClock(env, a.saved.rdi))
  {
  }

  /** In every run: the ends that the kernel stored for it are a new, disarmed timer's, which counts by
      the clock that was asked for or the one that stands for it; and they are the ends that the
      rest of the script is about. */
  lemma PipeBecomesTimer(c: Config, xs: seq<Whole>, turns: seq<Turn>, i: nat, r: nat, w: nat)
    requires IsTimedRun(c, xs, turns) && i < |turns| && PipeReturns(c, xs[i], turns[i])
    requires r < 0x8000_0000 && w < 0x8000_0000 && turns[i].ev.out.reopened
    requires ReadSpec(turns[i].ev.q.mem, Scratch(SeenIn(xs[i].s, turns[i].ev.pid).taken.value.entry.regs.rsp), 8)
             == Some(ToBytes(r, 4) + ToBytes(w, 4))
    ensures var clock := ReplacedClock(c.env, SeenIn(xs[i].s, turns[i].ev.pid).taken.value.entry.regs.rdi);
            && xs[i + 1].w.s.timers == xs[i].w.s.timers[r := TimerFd.Timer(AsI32(clock), None, ZERO)]
            && xs[i + 1].w.s.writeEnds == xs[i].w.s.writeEnds + {r}
    ensures var v := ViewIn(xs[i + 1].s, turns[i].ev.pid);
            v.active.Some? ==> v.active.value.Sequence? && M.FdsOf(v.active.value) == M.Fds(r, r, w)
  {
    var x, y, ev := xs[i], xs[i + 1], turns[i].ev;
    hide M.Inv;
    hide IsRun;
    var ss, evs := TracerRun(c, xs, turns, i);
    M.RunKeepsScripts(c, ss, evs, |evs|);
    assert Turns(c, x, turns[i], y);
    var a := ViewIn(x.s, ev.pid).active.value;
    PipeIsRunning(c.env, ev.pid, ViewIn(x.s, ev.pid), SeenIn(x.s, ev.pid).taken);
    EndsAreRead(ev.q.mem, Scratch(a.saved.rsp), r, w);
    hide PipeFds;
    hide Happens;
    hide Scratch;
    hide ReplacedClock;
    PipeTurn(c, x, ev, y, r, w);
  }
}
