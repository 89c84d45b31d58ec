/** What the handling of a stop can and cannot change, whatever the call. */
module StopShapes {
  import opened Options
  import opened TraceeMemory
  import opened Words
  import opened PtraceKernel
  import opened Sequences
  import opened Takeover
  import opened Translations
  import opened Supervision

  /** The call a sequence is making. */
  function RunningCall(a: Active): Request6
    requires a.Sequence? && a.running.Some?
  {
    Build(a.running.value, a.fd, a.readEnd, a.writeEnd)
  }

  /** The tracee's registers are those of the call the sequence is making; only what the
      kernel itself overwrites differs. */
  predicate Makes(regs: Regs, a: Active) {
    && a.Sequence? && a.running.Some?
    && regs == Patched(a.saved, RunningCall(a)).(rip := if a.atEntry then a.gadget else a.saved.rip, rest := regs.rest)
  }

  predicate StandsIn(regs: Regs, entry: Regs) {
    regs == entry.(origRax := SYS_GETPID, rax := SYS_GETPID, rest := regs.rest)
  }

  /** An emulation as it starts. */
  predicate Fresh(a: Active, regs: Regs, after: Regs) {
    match a
    case Fixup(_) => StandsIn(after, regs)
    case Sequence(saved, gadget, _, _, atEntry, results, _, _, _, _, _) =>
      saved == regs && !atEntry && results == [] && gadget == WrappingSub(regs.rip, 2) && Makes(after, a)
  }

  lemma BeginShape(env: Env, pid: Pid, sequence: nat, regs: Regs, mem: Memory, entering: bool, out: Outside)
    ensures var b := Begin(env, pid, sequence, regs, mem, entering, out);
            && (b.active.None? ==> b.regs == regs)
            && (b.active.Some? ==> entering && Fresh(b.active.value, regs, b.regs))
            && (!entering ==> b.mem == mem)
  {
    hide EventfdBuffers;
    hide SocketAddress;
    hide OldReported;
    hide CurrentSetting;
    hide Build;
    hide ReadSpec;
    hide WriteSpec;
    hide ReplacedClock;
    hide Bit;
  }

  /** Injected calls come back with the registers they went in with. */
  lemma InjectedNumbers(step: Step, fd: I64, readEnd: I64, writeEnd: I64)
    ensures var nr := Build(step, fd, readEnd, writeEnd).nr; !ReplacesRegs(nr) && !MakesEvents(nr)
  {
  }

  predicate SameButRegsAndMem(p: Proc, q: Proc) {
    q == p.(regs := q.regs, mem := q.mem)
  }

  /** A rewrite moves the stack only when it says where it was. */
  lemma CommonShape(env: Env, regs: Regs, mem: Memory, out: Outside)
    ensures var common := TranslateCommon(env, regs, mem, out);
            && common.regs.cs == regs.cs
            && (common.statx.Some? ==> common.reserved.Some?)
            && (common.reserved.Some? ==> common.reserved.value == regs.rsp && common.handled == Some(true))
            && (common.reserved.None? ==> common.regs.rsp == regs.rsp)
            && (common.handled.None? ==> common.regs == regs && common.reserved.None? && common.statx.None?)
            && (common.handled == Some(true) ==>
                  NeedsExits(env) && !ReplacesRegs(common.regs.origRax) && !MakesEvents(common.regs.origRax))
  {
    hide RelativeTimeout;
    hide WaitsUntil;
    hide BareCommand;
    hide Bit;
  }

  /** Translating an entry moves the stack only to bring it back. */
  lemma EntryShape(env: Env, v: View, p: Proc, out: Outside)
    requires v.reserved.None? && v.statx.None? && v.termios2.None?
    ensures var (w, q) := OnEntry(env, v, p, out);
            && w == v.(lastSyscall := w.lastSyscall, termios2 := w.termios2, reserved := w.reserved, statx := w.statx)
            && SameButRegsAndMem(p, q) && q.regs.cs == p.regs.cs
            && (w.statx.Some? ==> w.reserved.Some?)
            && (w.reserved.Some? ==>
                w.reserved.value == p.regs.rsp && q.regs.cs == CS_64 && !ReplacesRegs(q.regs.origRax))
            && (w.reserved.None? ==> q.regs.rsp == p.regs.rsp)
            && (w.termios2.Some? ==> q.regs.cs == CS_64 && q.regs.origRax == SYS_IOCTL)
  {
    hide TranslateCommon;
    hide ReplacedClock;
    hide PpollTimeout;
    hide Wrapped;
    CommonShape(env, p.regs, p.mem, out);
  }

  lemma FilterShape(c: Config, v: View, p: Proc, out: Outside)
    ensures var (w, q, needsExit) := AtFilter(c, v, p, out);
            && w == v.(lastSyscall := w.lastSyscall, reserved := w.reserved, statx := w.statx)
            && SameButRegsAndMem(p, q) && q.regs.cs == p.regs.cs
            && (needsExit ==> NeedsExits(c.env) && !ReplacesRegs(q.regs.origRax) && !MakesEvents(q.regs.origRax))
            && (!needsExit ==> w == v)
            && (v.reserved.None? && v.statx.None? && v.lastSyscall.None? ==>
                  && (w.reserved.Some? ==> w.reserved.value == p.regs.rsp)
                  && (w.reserved.None? ==> q.regs.rsp == p.regs.rsp)
                  && (w.statx.Some? ==> w.reserved.Some?))
  {
    hide TranslateCommon;
    CommonShape(c.env, p.regs, p.mem, out);
  }

  lemma ExitShape(env: Env, v: View, p: Proc, filled: Filled)
    ensures var (w, q) := OnExit(env, v, p, filled);
            && SameButRegsAndMem(p, q)
            && (p.regs.cs == CS_64 ==>
                  && w == v.(termios2 := None, statx := None, reserved := None, lastSyscall := None)
                  && q.regs == p.regs.(
                       rax := q.regs.rax, rsp := if v.reserved.Some? then v.reserved.value else p.regs.rsp))
            && (p.regs.cs != CS_64 ==> w == v && q == p)
  {
    hide AnswerCompleted;
    hide RandomFilled;
    AnswerCompletedShape(v, p);
    RandomFilledShape(env, v.lastSyscall, BeforeFill(v, p), filled);
  }

  lemma OwnStopStartsNothing(env: Env, v: View, p: Proc, out: Outside, filled: Filled)
    ensures OnSyscallStop(env, v, p, out, filled).0.active == v.active
  {
    hide TranslateCommon;
    hide OtherRewrites;
    hide AnswerCompleted;
    hide RandomFilled;
  }

  /** A count of random bytes stands, even one that looks like the call's own number. */
  lemma FilledCountStands(env: Env, v: View, p: Proc, filled: Filled)
    requires p.regs.cs == CS_64 && FillsRandom(env, v.lastSyscall) && filled.ok
    ensures OnExit(env, v, p, filled).1.regs.rax == p.regs.rsi
  {
    hide AnswerCompleted;
    AnswerCompletedShape(v, p);
  }

  /** Of any other call with no answer to complete, the result becomes ENOSYS exactly when a
      kernel that echoes numbers gave the call's own number back, above its table, for a call
      that was not rewritten; else it stays. */
  lemma OnlyEchoesAreUndone(env: Env, v: View, p: Proc, filled: Filled)
    requires p.regs.cs == CS_64 && !FillsRandom(env, v.lastSyscall) && v.statx.None? && v.termios2.None?
    ensures var echo := env.echoesNumber && v.lastSyscall.Some? && v.lastSyscall.value > 279
                        && p.regs.origRax == v.lastSyscall.value && p.regs.rax == v.lastSyscall.value;
            OnExit(env, v, p, filled).1.regs.rax == if echo then Unsigned(-38) else p.regs.rax
  {
  }
}
