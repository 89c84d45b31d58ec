/** Calls whose answer is completed at their exit. In every run what the application finds where it
    asked for it is what the call it made promises. */
module CompletedAnswers {
  import opened Options
  import opened TraceeMemory
  import opened Words
  import opened PtraceKernel
  import opened Takeover
  import opened Translations
  import opened Supervision
  import opened StopShapes
  import opened Protocol
  import E = EverySyscallMode
  import F = FilteredMode
  import R = Runs

  /** A statx that has a buffer, on a kernel without it. */
  predicate AsksStatx(env: Env, call: Regs) {
    call.cs == CS_64 && call.origRax == SYS_STATX && call.r8 != 0 && env.statxMissing
  }

  predicate AsksSpeeds(c: Config, call: Regs) {
    && c.mode == EverySyscall && call.cs == CS_64 && c.env.before2_6_20
    && call.origRax == SYS_IOCTL && call.rsi == TCGETS2
  }

  predicate AsksRandom(env: Env, call: Regs) {
    call.cs == CS_64 && call.origRax == SYS_GETRANDOM && env.getrandomMissing
  }

  /** The tracee is in a call whose exit is waited for. */
  predicate Inside(c: Config, p: Proc, v: View) {
    && p.regs.cs == CS_64 && !ReplacesRegs(p.regs.origRax)
    && match c.mode
       case EverySyscall => v.active.None? && v.inSyscall
       case Filtered => p.resumed == SyscallTrace
       case SignalsOnly => false
  }

  /** What is remembered for the exit is what the call asks for, and where. */
  predicate Owed(c: Config, p: Proc, v: View, call: Option<Regs>) {
    Inside(c, p, v) ==>
      && call.Some?
      && v.statx == (if AsksStatx(c.env, call.value)
                     then Some(StatxState(call.value.r8, Scratch(call.value.rsp))) else None)
      && v.termios2 == (if AsksSpeeds(c, call.value) then Some(call.value.rdx) else None)
      && (FillsRandom(c.env, v.lastSyscall) <==> AsksRandom(c.env, call.value))
      && (v.statx.Some? || v.termios2.Some? ==> p.regs.origRax <= ABOVE_TABLE)
      && (AsksRandom(c.env, call.value) ==> p.regs.rdi == call.value.rdi && p.regs.rsi == call.value.rsi)
  }

  lemma OwnEntryOwes(m: Moment)
    requires E.Stopped(m) && E.Inv(m.p, m.v, m.seen)
    requires m.stop.SyscallStop? && m.v.active.None? && !m.v.inSyscall
    ensures Owed(m.c, AfterStop(m).proc, AfterStop(m).view, SeenAfter(m).call)
  {
    hide RunsTo;
    hide Begin;
    hide OnExit;
    hide ReplacesRegs;
    hide RelativeTimeout;
    hide WaitsUntil;
    hide BareCommand;
    hide PpollTimeout;
    hide Wrapped;
    hide ReplacedClock;
    hide Bit;
    hide Scratch;
    hide E.InFlight;
    BeginShape(m.c.env, m.pid, m.n, m.q.regs, m.q.mem, true, m.out);
  }

  lemma OtherStopOwes(m: Moment)
    requires E.Stopped(m) && E.Inv(m.p, m.v, m.seen)
    requires m.stop.SyscallStop? && (m.v.active.Some? || m.v.inSyscall)
    ensures Owed(m.c, AfterStop(m).proc, AfterStop(m).view, SeenAfter(m).call)
  {
    hide Begin;
    hide OnExit;
    hide RunsTo;
    hide E.StackKept;
    hide ReplacesRegs;
    BeginShape(m.c.env, m.pid, m.n, m.q.regs, m.q.mem, false, m.out);
    ExitShape(m.c.env, m.v.(inSyscall := false), m.q, m.filled);
  }

  lemma TracedStopOwes(m: Moment)
    requires E.Stopped(m) && E.Inv(m.p, m.v, m.seen) && Owed(m.c, m.p, m.v, m.seen.call)
    ensures Owed(m.c, AfterStop(m).proc, AfterStop(m).view, SeenAfter(m).call)
  {
    if m.stop.SyscallStop? && m.v.active.None? && !m.v.inSyscall {
      OwnEntryOwes(m);
    } else if m.stop.SyscallStop? {
      OtherStopOwes(m);
    } else {
      hide Executed;
      hide EntersAsIs;
      hide AtXgetbv;
      hide ReplacesRegs;
      hide E.StackKept;
      hide E.InFlight;
    }
  }

  lemma FilteredStopOwes(m: Moment)
    requires F.Stopped(m) && m.c.order == EntryAfterFilter && F.Inv(m.c, m.pid, m.p, m.v, CallRsp(m.seen))
    requires Owed(m.c, m.p, m.v, m.seen.call)
    ensures Owed(m.c, AfterStop(m).proc, AfterStop(m).view, SeenAfter(m).call)
  {
    hide OnExit;
    hide Executed;
    hide AtXgetbv;
    hide ReplacesRegs;
    hide MakesEvents;
    hide RelativeTimeout;
    hide WaitsUntil;
    hide BareCommand;
    hide Bit;
    hide Scratch;
  }

  /** The modes and stop orders in which exits are waited for. */
  predicate Waits(c: Config) {
    c.mode == EverySyscall || (c.mode == Filtered && c.order == EntryAfterFilter)
  }

  predicate PidOwed(c: Config, s: Sys, pid: Pid) {
    pid in s.procs ==> Owed(c, s.procs[pid], ViewIn(s, pid), SeenIn(s, pid).call)
  }

  lemma StepOwes(c: Config, s: Sys, ev: Event, s': Sys, pid: Pid)
    requires Waits(c) && R.Inv(c, s) && Happens(c, s, ev, s') && PidOwed(c, s, pid)
    ensures PidOwed(c, s', pid)
  {
    hide Owed;
    hide RunsTo;
    hide AfterStop;
    hide SeenAfter;
    hide FillMatches;
    hide E.Inv;
    hide F.Inv;
    assert R.PidInv(c, s, pid);
    if ev.Stops? && ev.pid == pid {
      if c.mode == EverySyscall {
        TracedStopOwes(MomentOf(c, s, ev));
      } else {
        FilteredStopOwes(MomentOf(c, s, ev));
      }
    } else if ev.Born? && ev.pid == pid {
      NewbornOwes(c, s'.procs[pid], SeenIn(s', pid).call);
    }
  }

  lemma NewbornOwes(c: Config, p: Proc, call: Option<Regs>)
    requires p.resumed == Unresumed
    ensures Owed(c, p, BLANK, call)
  {
  }

  lemma StartOwes(c: Config, s: Sys, pid: Pid)
    requires Initial(c, s)
    ensures PidOwed(c, s, pid)
  {
  }

  lemma {:induction false} RunOwes(c: Config, ss: seq<Sys>, evs: seq<Event>, i: nat, pid: Pid)
    requires Waits(c) && IsRun(c, ss, evs) && i < |ss|
    ensures PidOwed(c, ss[i], pid)
  {
    hide PidOwed;
    hide Happens;
    hide R.Inv;
    if i == 0 {
      StartOwes(c, ss[0], pid);
    } else {
      RunOwes(c, ss, evs, i - 1, pid);
      R.RunKeepsInv(c, ss, evs, i - 1);
      StepOwes(c, ss[i - 1], evs[i - 1], ss[i], pid);
    }
  }

  /** What a statx that came back leaves: the answer at the caller's address, made of what is in
      scratch memory, and nothing anywhere else; or EFAULT, when either is not there. */
  ghost predicate StatxAnswered(call: Regs, q: Proc, after: Proc) {
    var from, to := ReadSpec(q.mem, Scratch(call.rsp), 144), ReadSpec(after.mem, call.r8, 256);
    && OnlyInside(q.mem, after.mem, call.r8, 256)
    && (q.regs.rax != 0 ==> after.mem == q.mem)
    && (q.regs.rax == 0 ==>
          if from.Some? && WordsMapped(q.mem, call.r8, 256) then
            after.regs.rax == 0 && to.Some? && IsStatxOf(to.value, from.value)
          else after.regs.rax == Unsigned(-EFAULT))
  }

  lemma StatxIsAnswered(env: Env, v: View, q: Proc, filled: Filled, call: Regs)
    requires q.regs.cs == CS_64 && v.statx == Some(StatxState(call.r8, Scratch(call.rsp))) && v.termios2.None?
    requires !FillsRandom(env, v.lastSyscall) && q.regs.origRax <= ABOVE_TABLE
    ensures StatxAnswered(call, q, OnExit(env, v, q, filled).1)
  {
    hide BuildStatx;
    hide IsStatxOf;
    hide Scratch;
    hide Overwrite;
    var stat := ReadSpec(q.mem, Scratch(call.rsp), 144);
    if stat.Some? {
      StatxFields(stat.value);
      WriteStaysInside(q.mem, call.r8, BuildStatx(stat.value));
      if WordsMapped(q.mem, call.r8, 256) {
        WrittenIsRead(q.mem, call.r8, BuildStatx(stat.value));
      }
    }
  }

  /** The speed that the flags at this address stand for, or none. */
  function SpeedAt(mem: Memory, at: U64): nat {
    match ReadSpec(mem, at, SPEEDS_AT)
    case None => 0
    case Some(termios) => Speed(FromBytes(termios[8..12]))
  }

  lemma SpeedAtFits(mem: Memory, at: U64)
    ensures SpeedAt(mem, at) < Power256(4)
    ensures SpeedsFilled(at, mem)
            == WriteSpec(mem, at + SPEEDS_AT, ToBytes(SpeedAt(mem, at), 4) + ToBytes(SpeedAt(mem, at), 4))
  {
    hide Speed;
    SpeedFits(0);
    if ReadSpec(mem, at, SPEEDS_AT).Some? {
      SpeedFits(FromBytes(ReadSpec(mem, at, SPEEDS_AT).value[8..12]));
    }
  }

  /** What an answered TCGETS2 leaves: both speeds behind what the kernel answered, and nothing
      anywhere else; or EFAULT, when they cannot be put there. */
  ghost predicate SpeedsAnswered(call: Regs, q: Proc, after: Proc) {
    var at := call.rdx + SPEEDS_AT;
    var speeds := ReadSpec(after.mem, at, 8);
    && OnlyInside(q.mem, after.mem, at, 8)
    && (q.regs.rax != 0 ==> after.mem == q.mem)
    && (q.regs.rax == 0 && !WordsMapped(q.mem, at, 8) ==> after.regs.rax == Unsigned(-EFAULT))
    && (q.regs.rax == 0 && WordsMapped(q.mem, at, 8) ==>
          && after.regs.rax == 0 && speeds.Some?
          && FromBytes(speeds.value[0..4]) == FromBytes(speeds.value[4..8])
             == SpeedAt(q.mem, call.rdx))
  }

  lemma TwoSpeeds(speed: nat)
    requires speed < Power256(4)
    ensures var b := ToBytes(speed, 4) + ToBytes(speed, 4);
            |b| == 8 && FromBytes(b[0..4]) == speed && FromBytes(b[4..8]) == speed
  {
    BytesRoundTrip(speed, 4);
    var four := ToBytes(speed, 4);
    assert (four + four)[0..4] == four && (four + four)[4..8] == four;
  }

  /** What is written behind the flags. */
  lemma SpeedsWritten(at: U64, mem: Memory, speed: nat)
    requires speed < Power256(4)
    ensures var (ok, after) := WriteSpec(mem, at + SPEEDS_AT, ToBytes(speed, 4) + ToBytes(speed, 4));
            && OnlyInside(mem, after, at + SPEEDS_AT, 8) && (ok <==> WordsMapped(mem, at + SPEEDS_AT, 8))
            && (ok ==> ReadSpec(after, at + SPEEDS_AT, 8).Some?
                       && var b := ReadSpec(after, at + SPEEDS_AT, 8).value;
                       FromBytes(b[0..4]) == FromBytes(b[4..8]) == speed)
  {
    var bytes := ToBytes(speed, 4) + ToBytes(speed, 4);
    TwoSpeeds(speed);
    hide ToBytes;
    hide FromBytes;
    WriteStaysInside(mem, at + SPEEDS_AT, bytes);
    if WordsMapped(mem, at + SPEEDS_AT, 8) {
      WrittenIsRead(mem, at + SPEEDS_AT, bytes);
    }
  }

  lemma ExitOfSpeeds(env: Env, v: View, q: Proc, filled: Filled)
    requires q.regs.cs == CS_64 && v.statx.None? && !FillsRandom(env, v.lastSyscall) && q.regs.origRax <= ABOVE_TABLE
    ensures var r, s := OnExit(env, v, q, filled).1, SpeedsCompleted(v.termios2, q);
            r.mem == s.mem && r.regs.rax == s.regs.rax
  {
    hide SpeedsCompleted;
    AnswerCompletedShape(v, q);
  }

  lemma SpeedsAreAnswered(env: Env, v: View, q: Proc, filled: Filled, call: Regs)
    requires q.regs.cs == CS_64 && v.termios2 == Some(call.rdx) && v.statx.None?
    requires !FillsRandom(env, v.lastSyscall) && q.regs.origRax <= ABOVE_TABLE
    ensures SpeedsAnswered(call, q, OnExit(env, v, q, filled).1)
  {
    ExitOfSpeeds(env, v, q, filled);
    SpeedAtFits(q.mem, call.rdx);
    SpeedsWritten(call.rdx, q.mem, SpeedAt(q.mem, call.rdx));
    hide OnExit;
    hide SpeedAt;
    hide FromBytes;
    hide ToBytes;
    hide WriteSpec;
    hide ReadSpec;
    hide SpeedsFilled;
    hide OnlyInside;
    if q.regs.rax != 0 {
      StaysInside(q.mem, call.rdx + SPEEDS_AT, 8);
    }
  }

  lemma StaysInside(mem: Memory, at: Address, length: nat)
    ensures OnlyInside(mem, mem, at, length)
  {
  }

  /** What a getrandom leaves: the source's first bytes in the caller's buffer and their count, and
      nothing anywhere else; or no success, when buffer and source do not allow it. */
  ghost predicate RandomAnswered(call: Regs, q: Proc, out: Outside, after: Proc) {
    var fills := call.rsi == 0 || (call.rdi != 0 && out.urandom && call.rsi <= |out.random|
                                   && WordsMapped(q.mem, call.rdi, call.rsi));
    && OnlyInside(q.mem, after.mem, call.rdi, call.rsi)
    && (fills ==> after.mem == Overwrite(q.mem, call.rdi, if call.rsi == 0 then [] else out.random[..call.rsi])
                  && after.regs.rax == call.rsi)
    && (!fills ==> after.regs.rax == if q.regs.rax == SYS_GETRANDOM then Unsigned(-ENOSYS) else q.regs.rax)
  }

  lemma RandomIsAnswered(env: Env, v: View, q: Proc, out: Outside, filled: Filled, call: Regs)
    requires q.regs.cs == CS_64 && v.termios2.None? && v.statx.None? && FillsRandom(env, v.lastSyscall)
    requires q.regs.rdi == call.rdi && q.regs.rsi == call.rsi && FillHappened(env, v, q, out, filled)
    ensures RandomAnswered(call, q, out, OnExit(env, v, q, filled).1)
  {
    hide Overwrite;
    hide OnlyInside;
  }

  /** The exit stop of a call that is waited for. */
  ghost predicate Exits(m: Moment) {
    && Waits(m.c) && m.stop == SyscallStop && RunsTo(m.c.order, m.p, m.stop, m.q) && HandlesExit(m.c, m.v, m.stop)
    && (if m.c.mode == EverySyscall then E.Inv(m.p, m.v, m.seen) else F.Inv(m.c, m.pid, m.p, m.v, CallRsp(m.seen)))
    && m.p.regs.cs == CS_64 && !ReplacesRegs(m.p.regs.origRax)
  }

  /** It is handled as an exit, with the registers of the call. */
  lemma ExitIsHandled(m: Moment)
    requires Exits(m)
    ensures Inside(m.c, m.p, m.v) && m.q.regs == m.p.regs.(rax := m.q.regs.rax, rest := m.q.regs.rest)
    ensures var r := OnExit(m.c.env, m.v.(inSyscall := false), m.q, m.filled).1;
            AfterStop(m).proc.regs == r.regs && AfterStop(m).proc.mem == r.mem
  {
    hide OnExit;
    hide Begin;
    hide SigprocmaskDone;
    hide EpollWaitDone;
    hide E.InFlight;
    hide E.StackKept;
    BeginShape(m.c.env, m.pid, m.n, m.q.regs, m.q.mem, false, m.out);
  }

  lemma ExitAnswers(m: Moment)
    requires Exits(m) && FillMatches(m.c, m.v, m.q, m.stop, m.out, m.filled) && Owed(m.c, m.p, m.v, m.seen.call)
    ensures m.seen.call.Some?
    ensures var call, after := m.seen.call.value, AfterStop(m).proc;
            && (AsksStatx(m.c.env, call) ==> StatxAnswered(call, m.q, after))
            && (AsksSpeeds(m.c, call) ==> SpeedsAnswered(call, m.q, after))
            && (AsksRandom(m.c.env, call) ==> RandomAnswered(call, m.q, m.out, after))
  {
    ExitIsHandled(m);
    hide RunsTo;
    hide E.Inv;
    hide F.Inv;
    hide AfterStop;
    hide OnExit;
    hide Scratch;
    var env, v, call := m.c.env, m.v.(inSyscall := false), m.seen.call.value;
    if AsksStatx(env, call) {
      StatxIsAnswered(env, v, m.q, m.filled, call);
    } else if AsksSpeeds(m.c, call) {
      SpeedsAreAnswered(env, v, m.q, m.filled, call);
    } else if AsksRandom(env, call) {
      RandomIsAnswered(env, v, m.q, m.out, m.filled, call);
    }
  }

  /** In every run, in the modes that wait for exits: what a statx, a TCGETS2 or a getrandom that the
      kernel lacks finds at its exit is as the call it was made as promises, for its own address. */
  lemma AnswersReachCaller(c: Config, ss: seq<Sys>, evs: seq<Event>, i: nat)
    requires Waits(c) && IsRun(c, ss, evs) && i < |evs| && R.Returns(c, ss[i], evs[i])
    requires evs[i].pid in ss[i].procs && ss[i].procs[evs[i].pid].regs.cs == CS_64
    requires !ReplacesRegs(ss[i].procs[evs[i].pid].regs.origRax)
    ensures SeenIn(ss[i], evs[i].pid).call.Some? && evs[i].pid in ss[i + 1].procs
    ensures var call, q, after := SeenIn(ss[i], evs[i].pid).call.value, evs[i].q, ss[i + 1].procs[evs[i].pid];
            && (AsksStatx(c.env, call) ==> StatxAnswered(call, q, after))
            && (AsksSpeeds(c, call) ==> SpeedsAnswered(call, q, after))
            && (AsksRandom(c.env, call) ==> RandomAnswered(call, q, evs[i].out, after))
  {
    hide RunsTo;
    hide AfterStop;
    hide SeenAfter;
    hide E.Inv;
    hide F.Inv;
    hide FillMatches;
    hide Owed;
    hide StatxAnswered;
    hide SpeedsAnswered;
    hide RandomAnswered;
    assert Happens(c, ss[i], evs[i], ss[i + 1]);
    R.InvOf(c, ss, evs, i, evs[i].pid);
    RunOwes(c, ss, evs, i, evs[i].pid);
    ExitAnswers(MomentOf(c, ss[i], evs[i]));
  }
}
