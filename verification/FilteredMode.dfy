/** The mode where only filtered calls stop: a call whose exit is needed is followed to it,
    and to nothing else. */
module FilteredMode {
  import opened Options
  import opened Words
  import opened PtraceKernel
  import opened Translations
  import opened Supervision
  import opened StopShapes
  import opened Protocol

  /** Something is left to do at the exit of the call the tracee is in. */
  predicate Owes(v: View) { v.reserved.Some? || v.statx.Some? || v.lastSyscall.Some? }

  /** Every call whose exit is needed is followed to it. This the caller can tell from the
      kernel: the entry stop comes after the filter's, or no exit is ever needed. */
  predicate FollowsThrough(c: Config) { c.order == EntryAfterFilter || !NeedsExits(c.env) }

  predicate Known(c: Config, pid: Pid, p: Proc, v: View) {
    && v.active.None? && v.stash.None? && !v.inSyscall && v.termios2.None?
    && (if p.resumed == Unresumed then v == BLANK && p.next == Entry else v.configured || pid == c.child)
  }

  /** Nothing is pending and no syscall stop is to come. */
  predicate Quiet(p: Proc, v: View) { p.resumed != SyscallTrace && !Owes(v) && !v.expectEntry }

  predicate Followed(p: Proc, v: View, callRsp: Option<U64>) {
    // What is pending is followed with PTRACE_SYSCALL ...
    && (Owes(v) || v.expectEntry ==> p.resumed == SyscallTrace)
    // ... through the entry stop that comes right after the filter's ...
    && (v.expectEntry ==> p.next == Entry && p.filtered)
    // ... and from there to the exit.
    && (p.resumed == SyscallTrace ==>
          && (v.expectEntry || p.next == Exit)
          && p.regs.cs == CS_64 && !ReplacesRegs(p.regs.origRax) && !MakesEvents(p.regs.origRax)
          && callRsp == Some(if v.reserved.Some? then v.reserved.value else p.regs.rsp))
  }

  predicate Inv(c: Config, pid: Pid, p: Proc, v: View, callRsp: Option<U64>) {
    && Known(c, pid, p, v)
    && (c.order == EntryAfterFilter ==> Followed(p, v, callRsp))
    && (!NeedsExits(c.env) ==> Quiet(p, v))
  }

  /** A stop in this mode. */
  ghost predicate Stopped(m: Moment) {
    m.c.mode == Filtered && RunsTo(m.c.order, m.p, m.stop, m.q)
  }

  lemma SignalKeepsInv(m: Moment)
    requires Stopped(m) && Inv(m.c, m.pid, m.p, m.v, CallRsp(m.seen)) && m.stop.SignalStop?
    ensures Inv(m.c, m.pid, AfterStop(m).proc, AfterStop(m).view, CallRsp(SeenAfter(m)))
  {
    hide AtXgetbv;
    hide AtSyscall;
    hide ReplacesRegs;
    hide MakesEvents;
  }

  lemma SeccompKeepsInv(m: Moment)
    requires Stopped(m) && Inv(m.c, m.pid, m.p, m.v, CallRsp(m.seen)) && m.stop.SeccompStop?
    ensures Inv(m.c, m.pid, AfterStop(m).proc, AfterStop(m).view, CallRsp(SeenAfter(m)))
  {
    hide AtFilter;
    hide ReplacesRegs;
    hide MakesEvents;
    FilterShape(m.c, m.v, m.q, m.out);
  }

  lemma SyscallKeepsInv(m: Moment)
    requires Stopped(m) && Inv(m.c, m.pid, m.p, m.v, CallRsp(m.seen)) && m.stop.SyscallStop?
    ensures Inv(m.c, m.pid, AfterStop(m).proc, AfterStop(m).view, CallRsp(SeenAfter(m)))
  {
    hide OnExit;
    hide ReplacesRegs;
    hide MakesEvents;
    hide SigprocmaskDone;
    hide EpollWaitDone;
    hide AtSyscall;
    ExitShape(m.c.env, m.v, m.q, m.filled);
  }

  /** Every stop keeps it. */
  lemma StopKeepsInv(m: Moment)
    requires Stopped(m) && Inv(m.c, m.pid, m.p, m.v, CallRsp(m.seen))
    ensures Inv(m.c, m.pid, AfterStop(m).proc, AfterStop(m).view, CallRsp(SeenAfter(m)))
  {
    hide ReplacesRegs;
    hide MakesEvents;
    hide OnFilteredSyscall;
    hide OnSeccomp;
    hide OnSignal;
    hide Executed;
    hide EntryRegs;
    match m.stop
    case SignalStop(_) => SignalKeepsInv(m);
    case SeccompStop => SeccompKeepsInv(m);
    case SyscallStop => SyscallKeepsInv(m);
    case EventStop =>
  }

  /** The entry stop that the filter's stop brings with it is skipped, and nothing is taken
      for the application's: after it the exit is awaited. */
  lemma EntryIsSkipped(m: Moment)
    requires FollowsThrough(m.c) && Stopped(m) && m.stop == SyscallStop && Inv(m.c, m.pid, m.p, m.v, CallRsp(m.seen))
    ensures m.p.resumed == SyscallTrace
    ensures m.v.expectEntry <==> m.q.next == Exit
    ensures m.v.expectEntry ==>
              && AfterStop(m).view == m.v.(expectEntry := false)
              && AfterStop(m).proc == m.q.(resumed := SyscallTrace, injected := None)
  {
    hide OnExit;
    hide Executed;
  }

  /** A translated call comes back with the stack where it was, and with nothing left to put
      right. */
  lemma CallReturns(m: Moment)
    requires FollowsThrough(m.c) && Stopped(m) && m.stop == SyscallStop && Inv(m.c, m.pid, m.p, m.v, CallRsp(m.seen))
    requires !m.v.expectEntry
    ensures m.q.next == Entry && !Owes(AfterStop(m).view) && !AfterStop(m).view.expectEntry
    ensures AfterStop(m).view.termios2.None?
    ensures AfterStop(m).proc.resumed == Cont
    ensures CallRsp(SeenAfter(m)) == Some(AfterStop(m).proc.regs.rsp)
  {
    hide OnExit;
    hide MakesEvents;
    hide SigprocmaskDone;
    hide EpollWaitDone;
    ExitShape(m.c.env, m.v, m.q, m.filled);
  }
}
