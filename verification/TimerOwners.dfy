/** The emulated timers are kept by the number of their fd alone. So a tracee that closes its own
    fd of that number ends another's timer. */
module TimerOwners {
  import opened Options
  import opened TraceeMemory
  import opened Words
  import opened PtraceKernel
  import opened Sequences
  import opened Takeover
  import opened TimeMath
  import opened Supervision
  import opened StopShapes
  import opened Protocol
  import opened TimedRuns
  import R = Runs
  import S = FirstSequence
  import T = TimerRuns
  import L = TimerEvents
  import TimerFd

  /** A stop that drops timers drops only those that its own tracee made. */
  ghost predicate DropsItsOwn(x: Whole, turn: Turn, y: Whole) {
    turn.Tracee? && turn.ev.Stops? ==>
      forall fd :: fd in x.w.s.timers && fd !in y.w.s.timers ==> fd in x.makers && x.makers[fd] == turn.ev.pid
  }

  ghost predicate AlwaysDropsItsOwn(c: Config) {
    forall xs, turns, i :: IsTimedRun(c, xs, turns) && 0 <= i < |turns| ==> DropsItsOwn(xs[i], turns[i], xs[i + 1])
  }

  /** A stop drops a timer exactly when some tracee, be it any, enters a close of its number. */
  lemma DropsAtClose(c: Config, x: Whole, ev: Event, y: Whole, fd: int)
    requires ev.Stops? && StopTurn(c, x, ev, y) && fd in x.w.s.timers
    ensures fd !in y.w.s.timers <==>
            ev.stop.SyscallStop? && c.mode != Filtered && Enters(ViewIn(x.s, ev.pid), ev.q, SYS_CLOSE, fd)
  {
    hide TimerfdSettime;
    hide Captured;
    hide TimerFd.ArmedFor;
  }

  /** No pipe is being made. */
  predicate PipeFree(v: View) {
    v.active.Some? && v.active.value.Sequence? ==>
      && (v.active.value.running.Some? ==> !v.active.value.running.value.Pipe?)
      && forall step <- v.active.value.queue :: !step.Pipe?
  }

  ghost predicate NoTimers(x: Whole) {
    x.w.s.timers == map[] && forall pid :: PipeFree(ViewIn(x.s, pid))
  }

  lemma BeginIsPipeFree(env: Env, pid: Pid, n: nat, regs: Regs, mem: Memory, entering: bool, out: Outside)
    requires !env.timerfdMissing
    ensures var b := Begin(env, pid, n, regs, mem, entering, out);
            b.active.Some? ==> PipeFree(BLANK.(active := b.active))
  {
    hide GadgetFor;
    hide OldReported;
    hide CurrentSetting;
    hide EventfdBuffers;
    hide SocketAddress;
  }

  lemma {:induction false} CleanupIsPipeFree(queue: seq<Step>)
    requires forall step <- queue :: !step.Pipe?
    ensures forall step <- SkipToCleanup(queue) :: !step.Pipe?
  {
    if queue != [] {
      CleanupIsPipeFree(queue[1..]);
    }
  }

  lemma AdvanceIsPipeFree(a: Active, regs: Regs, captured: Option<(I64, I64)>)
    requires PipeFree(BLANK.(active := Some(a)))
    ensures PipeFree(BLANK.(active := Advance(a, regs, captured).active))
  {
    hide Patched;
    hide Build;
    hide Answer;
    if a.Sequence? {
      CleanupIsPipeFree(a.queue);
    }
  }

  lemma StopIsPipeFree(m: Moment)
    requires m.c.mode == EverySyscall && !m.c.env.timerfdMissing && PipeFree(m.v) && !m.stop.SeccompStop?
    ensures PipeFree(AfterStop(m).view)
    ensures !StopOp(m.c, m.v, m.q, m.stop, m.n, m.out).CreateFd?
  {
    hide Begin;
    hide OnSyscallStop;
    hide Advance;
    hide Captured;
    hide Delivered;
    hide TimerfdSettime;
    BeginIsPipeFree(m.c.env, m.pid, m.n, m.q.regs, m.q.mem, !m.v.inSyscall, m.out);
    var b := Begin(m.c.env, m.pid, m.n, m.q.regs, m.q.mem, !m.v.inSyscall, m.out);
    OwnStopStartsNothing(m.c.env, m.v, m.q.(regs := b.regs, mem := b.mem), m.out, m.filled);
    if m.v.active.Some? {
      AdvanceIsPipeFree(m.v.active.value, m.q.regs, PipeCapture(m.v.active.value, m.q.mem, m.out.reopened));
    }
  }

  /** The condition: nothing that is not there can end. */
  predicate MakesNoTimers(c: Config) { c.mode != EverySyscall || !c.env.timerfdMissing }

  lemma TraceeStaysPipeFree(c: Config, s: Sys, ev: Event, s': Sys)
    requires MakesNoTimers(c) && R.Inv(c, s) && Happens(c, s, ev, s') && ev.Stops? && PipeFree(ViewIn(s, ev.pid))
    ensures PipeFree(ViewIn(s', ev.pid)) && !OpOf(c, s, ev).CreateFd?
  {
    hide RunsTo;
    hide Handle;
    hide SeenAfter;
    hide FillMatches;
    hide R.TraceeInv;
    var m := MomentOf(c, s, ev);
    assert R.PidInv(c, s, ev.pid);
    if c.mode == EverySyscall {
      hide StopOp;
      StopIsPipeFree(m);
    } else {
      R.StopKeepsTraceeInv(c, s, ev, s');
      OtherModes(c, ev.pid, s'.procs[ev.pid], ViewIn(s', ev.pid), SeenIn(s', ev.pid));
      R.NoSyscallStop(c, m.pid, m.p, m.v, m.seen, m.q);
    }
  }

  lemma OtherModes(c: Config, pid: Pid, p: Proc, v: View, seen: Seen)
    requires c.mode != EverySyscall && R.TraceeInv(c, pid, p, v, seen)
    ensures v.active.None?
  {
  }

  lemma AloneStaysEmpty(w: T.World, ev: T.Event, w': T.World)
    requires Alone(ev) && T.Step(w, ev, w') && w.s.timers == map[]
    ensures w'.s.timers == map[]
  {
    hide TimerFd.ArmedFor;
    if ev.Tick? && w.s.alarm {
      assert forall fd :: fd in w'.s.timers ==> fd in w.s.timers;
    }
  }

  lemma TurnStaysNoTimers(c: Config, x: Whole, turn: Turn, y: Whole)
    requires MakesNoTimers(c) && R.Inv(c, x.s) && NoTimers(x) && Turns(c, x, turn, y)
    ensures NoTimers(y)
  {
    hide R.Inv;
    hide OpOf;
    hide PipeFree;
    hide RunsTo;
    hide AfterStop;
    hide SeenAfter;
    hide FillMatches;
    hide TimerFd.ArmedFor;
    match turn
    case Timers(ev) => AloneStaysEmpty(x.w, ev, y.w);
    case Tracee(ev) =>
      if ev.Stops? {
        TraceeStaysPipeFree(c, x.s, ev, y.s);
        assert y.w.s.timers == map[];
      }
      BlankIsPipeFree();
      forall pid ensures PipeFree(ViewIn(y.s, pid)) {
        assert PipeFree(ViewIn(x.s, pid));
      }
  }

  lemma BlankIsPipeFree()
    ensures PipeFree(BLANK)
  {
  }

  lemma {:induction false} RunHasNoTimers(c: Config, xs: seq<Whole>, turns: seq<Turn>, i: nat)
    requires MakesNoTimers(c) && IsTimedRun(c, xs, turns) && i < |xs|
    ensures NoTimers(xs[i])
  {
    hide Turns;
    hide R.Inv;
    if i == 0 {
    } else {
      RunHasNoTimers(c, xs, turns, i - 1);
      TimedRunKeepsInv(c, xs, turns, i - 1);
      TurnStaysNoTimers(c, xs[i - 1], turns[i - 1], xs[i]);
    }
  }

  /** A whole state in which the child has made this timer, and is alone. */
  ghost predicate Made(c: Config, x: Whole, fd: I64) {
    && x.s.procs.Keys == {c.child} && x.s.views.Keys == {c.child}
    && fd in x.w.s.timers && fd in x.makers && x.makers[fd] == c.child
  }

  /** What a stop comes to, with the clock and the timer looked up. */
  function TurnTo(c: Config, x: Whole, ev: Event, s: TimerFd.State): Whole
    requires ev.Stops? && ev.pid in x.s.procs
  {
    var op := OpOf(c, x.s, ev);
    Whole(SysAfter(x.s, MomentOf(c, x.s, ev)), L.After(x.w, s, op),
          if op.CreateFd? then x.makers[op.fd := ev.pid] else x.makers)
  }

  /** The child's pipe call returns, and its read end is a timer. */
  lemma PipeReturns(c: Config, x: Whole) returns (turn: Turn, y: Whole, fd: I64)
    requires c.mode == EverySyscall && x.s.procs.Keys == {c.child} && x.s.views.Keys == {c.child}
    requires x.w.clock == TimerFd.Clock(ZERO, {}) && x.w.s.timers == map[]
    requires S.InFirstCall(ViewIn(x.s, c.child), x.s.procs[c.child], 0x0f, 0x05)
    requires ViewIn(x.s, c.child).active.value.running == Some(Pipe(1024))
    ensures Turns(c, x, turn, y) && Made(c, y, fd) && y.w.clock == TimerFd.Clock(ZERO, {})
  {
    var p, v := x.s.procs[c.child], ViewIn(x.s, c.child);
    var q := S.Succeeded(p);
    var ev := Stops(c.child, SyscallStop, q, S.REOPENS, S.NO_FILL);
    S.FirstCallSucceeds(c.order, v, p, 0x0f, 0x05);
    assert PipeFds(q.mem, 1024).Some?;
    hide Handle;
    hide SeenAfter;
    hide RunsTo;
    hide PipeFds;
    FitsI64(q.mem, 1024);
    fd := PipeFds(q.mem, 1024).value.0;
    var op := CreateFd(fd, v.active.value.clockid);
    assert OpOf(c, x.s, ev) == op;
    hide OpOf;
    var s := x.w.s.(timers := x.w.s.timers[fd := TimerFd.Timer(op.clockid, None, ZERO)],
                    writeEnds := x.w.s.writeEnds + {fd}, handlers := true);
    turn, y := Tracee(ev), TurnTo(c, x, ev, s);
  }

  /** The child's first call is a timerfd_create, and its pipe call succeeds. */
  lemma TimerIsMade(c: Config) returns (x0: Whole, t0: Turn, x1: Whole, t1: Turn, x2: Whole, fd: I64)
    requires c.mode == EverySyscall && c.env.timerfdMissing
    ensures Initial(c, x0.s) && x0.w == T.Initially({}) && x0.makers == map[]
    ensures Turns(c, x0, t0, x1) && Turns(c, x1, t1, x2) && Made(c, x2, fd) && x2.w.clock == TimerFd.Clock(ZERO, {})
  {
    hide S.InFirstCall;
    hide Happens;
    hide Initial;
    var s0, ev0 := S.Start(c, SYS_TIMERFD_CREATE, 0x0f, 0x05), S.FirstEvent(c, SYS_TIMERFD_CREATE, 0x0f, 0x05);
    S.StartIsInitial(c, SYS_TIMERFD_CREATE, 0x0f, 0x05);
    var s1 := S.SequenceStarts(c, SYS_TIMERFD_CREATE, 0x0f, 0x05);
    x0, t0, x1 := Whole(s0, T.Initially({}), map[]), Tracee(ev0), Whole(s1, T.Initially({}), map[]);
    assert OpOf(c, s0, ev0) == NoOp;
    t1, x2, fd := PipeReturns(c, x1);
  }

  /** A sibling that closes its own fd of that number first thing. */
  function Sibling(fd: I64): Proc {
    Proc(Regs(SYS_CLOSE, 0, Unsigned(fd), 0, 0, 0, 0, 0, 0, 0, CS_64, 0), map[], [0, 0, 0, 0, 0, 0, 0, 0], Entry, false,
         Unresumed, None)
  }

  /** It is born and stops, to be traced. */
  lemma SiblingAppears(c: Config, x: Whole, fd: I64) returns (t0: Turn, y: Whole, t1: Turn, z: Whole)
    requires c.mode == EverySyscall && Made(c, x, fd) && x.w.clock == TimerFd.Clock(ZERO, {})
    ensures Turns(c, x, t0, y) && Turns(c, y, t1, z)
    ensures z.w == x.w && z.makers == x.makers
    ensures c.child + 1 in z.s.procs && z.s.procs[c.child + 1] == Sibling(fd).(resumed := SyscallTrace)
    ensures ViewIn(z.s, c.child + 1) == BLANK.(configured := true)
  {
    var pid, p := c.child + 1, Sibling(fd);
    t0, y := Tracee(Born(pid, p)), x.(s := x.s.(procs := x.s.procs[pid := p]));
    assert ViewIn(y.s, pid) == BLANK;
    SignedUnsigned(fd, 0);
    var ev := Stops(pid, SignalStop(SIGSTOP), p, S.REOPENS.(timer := Some(x.w.s.timers[fd])), S.NO_FILL);
    hide Executed;
    hide FilterStops;
    hide AtXgetbv;
    t1, z := Tracee(ev), TurnTo(c, y, ev, y.w.s);
  }

  lemma SiblingCloses(c: Config, x: Whole, fd: I64) returns (turn: Turn, y: Whole)
    requires c.mode == EverySyscall && x.w.clock == TimerFd.Clock(ZERO, {}) && fd in x.w.s.timers
    requires c.child + 1 in x.s.procs && x.s.procs[c.child + 1] == Sibling(fd).(resumed := SyscallTrace)
    requires ViewIn(x.s, c.child + 1) == BLANK.(configured := true)
    ensures Turns(c, x, turn, y)
    ensures turn.Tracee? && turn.ev.Stops? && turn.ev.pid == c.child + 1 && fd !in y.w.s.timers
  {
    var pid, p := c.child + 1, x.s.procs[c.child + 1];
    var q := p.(next := Exit, regs := p.regs.(origRax := SYS_CLOSE));
    SignedUnsigned(fd, 0);
    var ev := Stops(pid, SyscallStop, q, S.REOPENS.(timer := Some(x.w.s.timers[fd])), S.NO_FILL);
    assert RunsTo(c.order, p, SyscallStop, q);
    assert OpOf(c, x.s, ev) == CloseFd(fd);
    hide OpOf;
    hide RunsTo;
    hide Handle;
    hide SeenAfter;
    var s := x.w.s.(timers := x.w.s.timers - {fd}, writeEnds := x.w.s.writeEnds - {fd});
    turn, y := Tracee(ev), TurnTo(c, x, ev, s);
  }

  /** On a kernel without timerfds: a run in which a second tracee ends the first one's timer. */
  lemma AnotherCanEndIt(c: Config)
    requires !MakesNoTimers(c)
    ensures !AlwaysDropsItsOwn(c)
  {
    hide Turns;
    hide Initial;
    var x0, t0, x1, t1, x2, fd := TimerIsMade(c);
    var t2, x3, t3, x4 := SiblingAppears(c, x2, fd);
    var t4, x5 := SiblingCloses(c, x4, fd);
    var xs, turns := [x0, x1, x2, x3, x4, x5], [t0, t1, t2, t3, t4];
    assert IsTimedRun(c, xs, turns);
    assert !DropsItsOwn(xs[4], turns[4], xs[5]);
  }

  /** The timers a stop drops are its own tracee's, in every run: exactly when no timers are
      made. */
  lemma AlwaysDropsItsOwnExactlyWhen(c: Config)
    ensures AlwaysDropsItsOwn(c) <==> MakesNoTimers(c)
  {
    hide Turns;
    if MakesNoTimers(c) {
      forall xs: seq<Whole>, turns: seq<Turn>, i | IsTimedRun(c, xs, turns) && 0 <= i < |turns|
        ensures DropsItsOwn(xs[i], turns[i], xs[i + 1])
      {
        RunHasNoTimers(c, xs, turns, i);
      }
    } else {
      AnotherCanEndIt(c);
    }
  }
}
