/** Kernels that answer a number they lack with the number itself. In every run where every
    call stops, none of these answers reaches the application. */
module EchoedNumbers {
  import opened Options
  import opened Words
  import opened PtraceKernel
  import opened Takeover
  import opened Translations
  import opened Supervision
  import opened StopShapes
  import opened Protocol
  import E = EverySyscallMode
  import R = Runs

  /** Inside a call of a 64-bit tracee its number is remembered, unless the call was rewritten
      to one that such kernels have; only such a one has an answer to be completed. */
  predicate Numbered(p: Proc, v: View) {
    v.active.None? && v.inSyscall && p.regs.cs == CS_64 && !ReplacesRegs(p.regs.origRax) ==>
      && v.lastSyscall.Some?
      && (v.lastSyscall.value == p.regs.origRax
          || (p.regs.origRax <= ABOVE_TABLE && v.lastSyscall.value != SYS_GETRANDOM))
      && (v.statx.Some? || v.termios2.Some? ==> p.regs.origRax <= ABOVE_TABLE)
  }

  /** A rewrite gives a number that these kernels have. */
  lemma EntryNumbers(env: Env, v: View, p: Proc, out: Outside)
    requires v.reserved.None? && v.statx.None? && v.termios2.None? && p.regs.cs == CS_64
    ensures var (w, q) := OnEntry(env, v, p, out);
            && w.lastSyscall == Some(p.regs.origRax)
            && (q.regs.origRax != p.regs.origRax ==>
                  q.regs.origRax <= ABOVE_TABLE && p.regs.origRax != SYS_GETRANDOM)
            && (w.statx.Some? || w.termios2.Some? ==> q.regs.origRax <= ABOVE_TABLE)
  {
    hide RelativeTimeout;
    hide WaitsUntil;
    hide BareCommand;
    hide Bit;
    hide PpollTimeout;
    hide Wrapped;
    hide ReplacedClock;
  }

  lemma EntryIsNumbered(m: Moment)
    requires E.Stopped(m) && E.Inv(m.p, m.v, m.seen)
    requires m.stop.SyscallStop? && m.v.active.None? && !m.v.inSyscall
    ensures Numbered(AfterStop(m).proc, AfterStop(m).view)
  {
    hide RunsTo;
    hide Begin;
    hide OnEntry;
    hide OnExit;
    hide ReplacesRegs;
    var b := Begin(m.c.env, m.pid, m.n, m.q.regs, m.q.mem, true, m.out);
    var q := m.q.(regs := b.regs, mem := b.mem);
    EntryShape(m.c.env, m.v.(inSyscall := true), q, m.out);
    if q.regs.cs == CS_64 {
      EntryNumbers(m.c.env, m.v.(inSyscall := true), q, m.out);
    }
  }

  lemma StopStaysNumbered(m: Moment)
    requires E.Stopped(m) && E.Inv(m.p, m.v, m.seen) && Numbered(m.p, m.v)
    ensures Numbered(AfterStop(m).proc, AfterStop(m).view)
  {
    if m.stop.SyscallStop? && m.v.active.None? && !m.v.inSyscall {
      EntryIsNumbered(m);
    } else {
      hide Begin;
      hide OnEntry;
      hide OnExit;
      hide Executed;
      hide EntersAsIs;
      hide AtXgetbv;
      hide ReplacesRegs;
      hide E.StackKept;
      hide E.InFlight;
      BeginShape(m.c.env, m.pid, m.n, m.q.regs, m.q.mem, false, m.out);
      ExitShape(m.c.env, m.v.(inSyscall := false), m.q, m.filled);
    }
  }

  predicate PidNumbered(s: Sys, pid: Pid) { pid in s.procs ==> Numbered(s.procs[pid], ViewIn(s, pid)) }

  lemma StepStaysNumbered(c: Config, s: Sys, ev: Event, s': Sys, pid: Pid)
    requires c.mode == EverySyscall && R.Inv(c, s) && Happens(c, s, ev, s') && PidNumbered(s, pid)
    ensures PidNumbered(s', pid)
  {
    hide Numbered;
    hide RunsTo;
    hide AfterStop;
    hide SeenAfter;
    hide FillMatches;
    hide E.Inv;
    assert R.PidInv(c, s, pid);
    if ev.Stops? && ev.pid == pid {
      StopStaysNumbered(MomentOf(c, s, ev));
    } else if ev.Born? && ev.pid == pid {
      BlankIsNumbered(s'.procs[pid]);
    }
  }

  lemma BlankIsNumbered(p: Proc)
    ensures Numbered(p, BLANK)
  {
  }

  lemma {:induction false} RunStaysNumbered(c: Config, ss: seq<Sys>, evs: seq<Event>, i: nat, pid: Pid)
    requires IsRun(c, ss, evs) && i < |ss| && c.mode == EverySyscall
    ensures PidNumbered(ss[i], pid)
  {
    hide PidNumbered;
    hide Happens;
    if i == 0 {
      StartsNumbered(c, ss[0], pid);
    } else {
      RunStaysNumbered(c, ss, evs, i - 1, pid);
      R.RunKeepsInv(c, ss, evs, i - 1);
      StepStaysNumbered(c, ss[i - 1], evs[i - 1], ss[i], pid);
    }
  }

  lemma StartsNumbered(c: Config, s: Sys, pid: Pid)
    requires Initial(c, s)
    ensures PidNumbered(s, pid)
  {
  }

  /** What the application finds in rax when a call of this number comes back: the count that was
      filled in, ENOSYS in place of the number, or the result as it is. */
  function Found(env: Env, nr: U64, rax: U64, count: U64, filled: Filled): U64 {
    var fills := nr == SYS_GETRANDOM && env.getrandomMissing;
    if fills && filled.ok then count
    else if (env.echoesNumber || fills) && nr > ABOVE_TABLE && rax == nr then Unsigned(-ENOSYS)
    else rax
  }

  /** The answer of an old call that was to be completed could not be. */
  predicate Refused(nr: U64, rax: U64, after: U64) { nr <= ABOVE_TABLE && rax == 0 && after == Unsigned(-EFAULT) }

  lemma ExitFinds(env: Env, v: View, p: Proc, q: Proc, filled: Filled)
    requires Numbered(p, v) && v.active.None? && v.inSyscall && p.regs.cs == CS_64 && !ReplacesRegs(p.regs.origRax)
    requires q.regs == p.regs.(rax := q.regs.rax, rest := q.regs.rest)
    ensures var rax := OnExit(env, v.(inSyscall := false), q, filled).1.regs.rax;
            rax == Found(env, p.regs.origRax, q.regs.rax, q.regs.rsi, filled)
            || Refused(p.regs.origRax, q.regs.rax, rax)
  {
    hide SpeedsFilled;
    hide StatxDone;
    if FillsRandom(env, v.lastSyscall) && filled.ok {
      FilledCountStands(env, v.(inSyscall := false), q, filled);
    } else if !FillsRandom(env, v.lastSyscall) && v.statx.None? && v.termios2.None? {
      OnlyEchoesAreUndone(env, v.(inSyscall := false), q, filled);
    }
  }

  lemma OwnExitFinds(m: Moment)
    requires E.Stopped(m) && E.Inv(m.p, m.v, m.seen) && Numbered(m.p, m.v)
    requires m.stop == SyscallStop && m.v.active.None? && m.v.inSyscall
    requires m.p.regs.cs == CS_64 && !ReplacesRegs(m.p.regs.origRax)
    ensures var nr, rax := m.p.regs.origRax, AfterStop(m).proc.regs.rax;
            rax == Found(m.c.env, nr, m.q.regs.rax, m.q.regs.rsi, m.filled) || Refused(nr, m.q.regs.rax, rax)
  {
    hide OnExit;
    hide Begin;
    hide Numbered;
    hide Found;
    hide Refused;
    hide SigprocmaskDone;
    hide EpollWaitDone;
    BeginShape(m.c.env, m.pid, m.n, m.q.regs, m.q.mem, false, m.out);
    ExitFinds(m.c.env, m.v, m.p, m.q, m.filled);
  }

  /** In every run where every call stops: a 64-bit call that the kernel made comes back with the
      kernel's result, except that a number above the table it gave back for itself has become
      ENOSYS, and that a count of random bytes that was filled in stands, whatever it is. */
  lemma EchoesAreUndone(c: Config, ss: seq<Sys>, evs: seq<Event>, i: nat)
    requires IsRun(c, ss, evs) && i < |evs| && c.mode == EverySyscall && R.Returns(c, ss[i], evs[i])
    requires evs[i].pid in ss[i].procs && ss[i].procs[evs[i].pid].regs.cs == CS_64
    requires !ReplacesRegs(ss[i].procs[evs[i].pid].regs.origRax)
    ensures evs[i].pid in ss[i + 1].procs
    ensures var nr, q := ss[i].procs[evs[i].pid].regs.origRax, evs[i].q.regs;
            var rax := ss[i + 1].procs[evs[i].pid].regs.rax;
            rax == Found(c.env, nr, q.rax, q.rsi, evs[i].filled) || Refused(nr, q.rax, rax)
  {
    hide RunsTo;
    hide AfterStop;
    hide SeenAfter;
    hide E.Inv;
    hide Numbered;
    hide Found;
    hide Refused;
    hide FillMatches;
    assert Happens(c, ss[i], evs[i], ss[i + 1]);
    R.InvOf(c, ss, evs, i, evs[i].pid);
    RunStaysNumbered(c, ss, evs, i, evs[i].pid);
    OwnExitFinds(MomentOf(c, ss[i], evs[i]));
  }
}
