/** The tracer: one object whose per-pid maps are updated at every stop. */
module Tracers {
  import opened Options
  import opened TraceeMemory
  import opened Words
  import opened PtraceKernel
  import opened Sequences
  import opened Takeover
  import opened Translations
  import opened Supervision
  import opened EmulatedSyscalls

  function Lookup<T>(m: map<Pid, T>, pid: Pid): Option<T> { if pid in m then Some(m[pid]) else None }

  class Tracer {
    const config: Config
    const kernel: Kernel
    const emulated: Emulations
    var configured: set<Pid>
    var inSyscall: map<Pid, bool>
    var lastSyscall: map<Pid, U64>
    var statx: map<Pid, StatxState>
    /** Where the answer to a TCGETS2 goes. */
    var termios2: map<Pid, U64>
    /** The stack pointer to restore at the exit stop. */
    var reserved: map<Pid, U64>
    /** A signal held back until the emulation in flight is over. */
    var stashed: map<Pid, int>
    /** The entry stop that follows a seccomp stop has not been seen yet. */
    var expectEntry: set<Pid>
    /** How the child ended, while others are still running. */
    var mainCode: Option<int>

    constructor (config: Config, kernel: Kernel)
      ensures this.config == config && this.kernel == kernel && emulated.kernel == kernel
      ensures fresh(emulated) && fresh(emulated.timerFds)
      ensures forall pid :: ViewOf(pid) == BLANK.(configured := pid == config.child)
      ensures mainCode.None?
    {
      this.config, this.kernel := config, kernel;
      configured, inSyscall, lastSyscall, statx, termios2 := {config.child}, map[], map[], map[], map[];
      reserved, stashed, expectEntry, mainCode := map[], map[], {}, None;
      emulated := new Emulations(kernel);
    }

    /** What is remembered of one tracee. */
    ghost function ViewOf(pid: Pid): View
      reads this, emulated
    {
      View(pid in configured, pid in inSyscall && inSyscall[pid], Lookup(lastSyscall, pid), Lookup(statx, pid),
           Lookup(termios2, pid), Lookup(reserved, pid), Lookup(stashed, pid), pid in expectEntry, emulated.Of(pid))
    }

    ghost predicate Ready(pid: Pid)
      reads this, kernel
    {
      emulated.kernel == kernel && pid in kernel.procs
    }

    /** One tracee and what is remembered of it changed, and nothing else did. */
    twostate predicate Became(pid: Pid, view: View, proc: Proc)
      requires old(pid in kernel.procs)
      reads this, emulated, kernel
    {
      && ViewOf(pid) == view
      && kernel.procs == old(kernel.procs)[pid := proc]
      && forall other :: other != pid ==> ViewOf(other) == old(ViewOf(other))
    }

    /** Drop everything remembered of a tracee that is gone. */
    method Forget(pid: Pid)
      modifies this`configured, this`inSyscall, this`lastSyscall, this`statx, this`termios2, this`reserved,
               this`stashed, this`expectEntry, emulated`active
      ensures ViewOf(pid) == BLANK
      ensures forall other :: other != pid ==> ViewOf(other) == old(ViewOf(other))
    {
      configured := configured - {pid};
      inSyscall := inSyscall - {pid};
      lastSyscall := lastSyscall - {pid};
      statx := statx - {pid};
      termios2 := termios2 - {pid};
      emulated.Forget(pid);
      reserved := reserved - {pid};
      stashed := stashed - {pid};
      expectEntry := expectEntry - {pid};
    }

    method Resume(pid: Pid, sig: Option<int>)
      requires Ready(pid)
      modifies kernel
      ensures kernel.procs == old(kernel.procs)[pid := ResumedIn(config.mode, old(kernel.procs)[pid], sig)]
    {
      kernel.Resume(pid, if config.mode == EverySyscall then SyscallTrace else Cont, sig);
    }

    method EmulateSigill(pid: Pid) returns (skipped: bool)
      requires Ready(pid)
      modifies kernel
      ensures skipped == AtXgetbv(old(kernel.procs)[pid].mem, old(kernel.procs)[pid].regs.rip)
      ensures !skipped ==> kernel.procs == old(kernel.procs)
      ensures var p := old(kernel.procs)[pid];
              skipped ==> kernel.procs == old(kernel.procs)[pid := p.(regs := SkippedXgetbv(p.regs))]
    {
      var p := kernel.procs[pid];
      var at: int := p.regs.rip;
      var word := PeekWord(p.mem, at);
      if word.None? {
        return false;
      }
      assert word.value[0] == p.mem[at] && word.value[1] == p.mem[at + 1] && word.value[2] == p.mem[at + 2];
      if word.value[0] == 0x0f && word.value[1] == 0x01 && word.value[2] == 0xd0 {
        kernel.SetRegs(pid, p.regs.(rax := 0, rdx := 0, rip := (p.regs.rip + 3) % TWO64));
        return true;
      }
      skipped := false;
    }

    /** Pass a signal on, unless it is an instruction to emulate. */
    method Deliver(pid: Pid, sig: int)
      requires Ready(pid)
      modifies kernel
      ensures kernel.procs == old(kernel.procs)[pid := Delivered(config.mode, ViewOf(pid), old(kernel.procs)[pid], sig)]
    {
      var pending := config.mode == Filtered
                     && (pid in reserved || pid in expectEntry || pid in statx || pid in lastSyscall);
      var suppress := false;
      if sig == SIGILL {
        suppress := EmulateSigill(pid);
      }
      if pending {
        kernel.Resume(pid, SyscallTrace, if suppress then None else Some(sig));
      } else if suppress {
        Resume(pid, None);
      } else {
        Resume(pid, Some(sig));
      }
    }

    method Stopped(pid: Pid, sig: int)
      requires Ready(pid)
      modifies this`configured, this`stashed, kernel
      ensures var (w, q) := OnSignal(config, pid, old(ViewOf(pid)), old(kernel.procs)[pid], sig); Became(pid, w, q)
    {
      hide Delivered;
      if pid != config.child && pid !in configured {
        configured := configured + {pid};
        if sig == SIGSTOP {
          Resume(pid, None);
          return;
        }
      }
      var busy := emulated.Busy(pid);
      if busy && sig != 0 && sig != SIGSTOP && sig != SIGTRAP {
        stashed := stashed[pid := sig];
        Resume(pid, None);
        return;
      }
      Deliver(pid, sig);
    }

    /** A call was rewritten, or left to the caller. */
    twostate predicate Rewrote(pid: Pid, common: Common)
      requires old(pid in kernel.procs)
      reads this, emulated, kernel
    {
      Became(pid, WithCommon(old(ViewOf(pid)), common), old(kernel.procs[pid]).(regs := common.regs, mem := common.mem))
    }

    /** Read the point in time the caller waits until, and write the time left until then
        below the stack. */
    method ReserveRelativeTimeout(pid: Pid, at: U64, realtime: bool, rsp: U64, out: Outside) returns (t: Timeout)
      requires Ready(pid)
      modifies kernel
      ensures t == RelativeTimeout(at, rsp, old(kernel.procs)[pid].mem, FutexClock(realtime, out))
      ensures var p := old(kernel.procs)[pid];
              kernel.procs == old(kernel.procs)[pid := p.(mem := MemoryAfter(t, p.mem))]
    {
      Unmoved(kernel.procs, pid);
      if at == 0 {
        return NoTimeout;
      }
      var raw := kernel.Read(pid, at, 16);
      if raw.None? {
        return Failed(kernel.procs[pid].mem);
      }
      var clock := if realtime then out.realtime else out.monotonic;
      if clock.None? {
        return Failed(kernel.procs[pid].mem);
      }
      var scratch := Scratch(rsp);
      var left := TimeMath.Sub(ReadTime(raw.value, 0), clock.value);
      var ok := kernel.Write(pid, scratch, TimeBytes(left));
      t := if ok then Reserved(scratch, kernel.procs[pid].mem) else Failed(kernel.procs[pid].mem);
    }

    /** A wait until a point in time becomes a wait for the time left. */
    method TranslateTimedFutex(pid: Pid, bare: nat, realtime: bool, out: Outside) returns (needsExit: bool)
      requires Ready(pid) && bare < 128
      modifies this`reserved, kernel
      ensures var p := old(kernel.procs)[pid];
              var common := TimedFutex(p.regs, bare, p.mem, FutexClock(realtime, out));
              Rewrote(pid, common) && common.handled == Some(needsExit)
    {
      hide RelativeTimeout;
      hide FutexClock;
      var regs := kernel.procs[pid].regs;
      var timeout := ReserveRelativeTimeout(pid, regs.r10, realtime, regs.rsp, out);
      needsExit := false;
      match timeout {
        case NoTimeout =>
          kernel.SetRegs(pid, regs.(rsi := bare));
        case Reserved(scratch, _) =>
          reserved := reserved[pid := regs.rsp];
          needsExit := true;
          kernel.SetRegs(pid, regs.(rsi := bare, rsp := scratch, r10 := scratch));
        case Failed(_) =>
      }
    }

    /** Before 2.6.29: flags off, bitset ops as plain ones, and a point in time as a duration. */
    method TranslateFutex(pid: Pid, out: Outside) returns (needsExit: bool)
      requires Ready(pid)
      modifies this`reserved, kernel
      ensures var common := Futex(config.env, old(kernel.procs)[pid].regs, old(kernel.procs)[pid].mem, out);
              Rewrote(pid, common) && common.handled == Some(needsExit)
    {
      Unmoved(kernel.procs, pid);
      var regs := kernel.procs[pid].regs;
      var op := regs.rsi % 0x1_0000_0000;
      var bare := BareCommand(op);
      if !config.env.before2_6_29 || bare == op {
        return false;
      }
      if WaitsUntil(op) {
        needsExit := TranslateTimedFutex(pid, bare, Bit(op, FUTEX_CLOCK_REALTIME), out);
        return;
      }
      kernel.SetRegs(pid, regs.(rsi := bare));
      needsExit := false;
    }

    /** statx becomes fstat or newfstatat into scratch memory. */
    method SetupStatx(pid: Pid)
      requires Ready(pid)
      modifies this`reserved, this`statx, kernel
      ensures Rewrote(pid, Statx(old(kernel.procs)[pid].regs, old(kernel.procs)[pid].mem))
    {
      Unmoved(kernel.procs, pid);
      var regs := kernel.procs[pid].regs;
      if regs.r8 == 0 {
        return;
      }
      var scratch := Scratch(regs.rsp);
      var patched := regs.(rsp := scratch);
      if Bit(regs.rdx, AT_EMPTY_PATH) {
        patched := patched.(rsi := scratch, rdx := 0, origRax := SYS_FSTAT, rax := SYS_FSTAT);
      } else {
        var flags := if Bit(regs.rdx, AT_SYMLINK_NOFOLLOW) then AT_SYMLINK_NOFOLLOW else 0;
        patched := patched.(r10 := flags, rdx := scratch,
                            origRax := SYS_NEWFSTATAT, rax := SYS_NEWFSTATAT);
      }
      kernel.SetRegs(pid, patched);
      reserved := reserved[pid := regs.rsp];
      statx := statx[pid := StatxState(regs.r8, scratch)];
    }

    /** futex, pipe2 and statx, whichever way their stop came about. */
    method CommonRewrites(pid: Pid, out: Outside) returns (handled: Option<bool>)
      requires Ready(pid)
      modifies this`reserved, this`statx, kernel
      ensures var common := TranslateCommon(config.env, old(kernel.procs)[pid].regs, old(kernel.procs)[pid].mem, out);
              && Rewrote(pid, common) && common.handled == handled
              && (handled.None? ==>
                  common == Common(None, old(kernel.procs)[pid].regs, old(kernel.procs)[pid].mem, None, None))
    {
      Unmoved(kernel.procs, pid);
      var regs := kernel.procs[pid].regs;
      if regs.origRax == SYS_FUTEX {
        var needsExit := TranslateFutex(pid, out);
        return Some(needsExit);
      }
      if regs.origRax == SYS_PIPE2 && config.env.pipe2Missing {
        kernel.SetRegs(pid, regs.(origRax := SYS_PIPE, rax := SYS_PIPE));
        return Some(false);
      }
      if regs.origRax == SYS_STATX && config.env.statxMissing {
        SetupStatx(pid);
        return Some(true);
      }
      handled := None;
    }

    /** A filtered call: whether its exit stop is needed too. */
    method TranslateFiltered(pid: Pid, out: Outside) returns (needsExit: bool)
      requires Ready(pid)
      modifies this`reserved, this`statx, this`lastSyscall, kernel
      ensures var (w, q, needs) := AtFilter(config, old(ViewOf(pid)), old(kernel.procs)[pid], out);
              needsExit == needs && Became(pid, w, q)
    {
      var nr := kernel.procs[pid].regs.origRax;
      var handled := CommonRewrites(pid, out);
      if handled.Some? {
        return handled.value;
      }
      if nr == SYS_GETRANDOM && config.env.getrandomMissing {
        lastSyscall := lastSyscall[pid := nr];
        return true;
      }
      needsExit := false;
    }

    method SeccompStopped(pid: Pid, out: Outside)
      requires Ready(pid)
      modifies this`reserved, this`statx, this`lastSyscall, this`expectEntry, kernel
      ensures var (w, q) := OnSeccomp(config, old(ViewOf(pid)), old(kernel.procs)[pid], out); Became(pid, w, q)
    {
      var needsExit := TranslateFiltered(pid, out);
      if needsExit {
        expectEntry := expectEntry + {pid};
        kernel.Resume(pid, SyscallTrace, None);
      } else {
        Resume(pid, None);
      }
    }

    /** The application's own entry stop. */
    method Entered(pid: Pid, out: Outside)
      requires Ready(pid)
      modifies this`reserved, this`statx, this`termios2, this`lastSyscall, kernel
      ensures var (w, q) := OnEntry(config.env, old(ViewOf(pid)), old(kernel.procs)[pid], out); Became(pid, w, q)
    {
      Unmoved(kernel.procs, pid);
      if kernel.procs[pid].regs.cs == CS_64 {
        TranslateEntry(pid, out);
      }
    }

    method TranslateEntry(pid: Pid, out: Outside)
      requires Ready(pid)
      modifies this`reserved, this`statx, this`termios2, this`lastSyscall, kernel
      ensures var (w, q) := EntryTranslated(config.env, old(ViewOf(pid)), old(kernel.procs)[pid], out);
              Became(pid, w, q)
    {
      hide TranslateCommon;
      hide OtherRewrites;
      lastSyscall := lastSyscall[pid := kernel.procs[pid].regs.origRax];
      var handled := CommonRewrites(pid, out);
      if handled.None? {
        RewriteOther(pid);
      }
    }

    /** A termios2 ioctl becomes the older one; of one that asks, the speeds are still to be
        filled in. */
    method SetupTermios2(pid: Pid)
      requires Ready(pid) && kernel.procs[pid].regs.origRax == SYS_IOCTL && config.env.before2_6_20
      modifies this`termios2, kernel
      ensures var regs := old(kernel.procs)[pid].regs;
              var asked := regs.rsi == TCGETS2;
              Became(pid, old(ViewOf(pid)).(termios2 := if asked then Some(regs.rdx) else old(ViewOf(pid)).termios2),
                     old(kernel.procs)[pid].(regs := OtherRewrites(config.env, regs, old(kernel.procs)[pid].mem)))
    {
      Unmoved(kernel.procs, pid);
      var regs := kernel.procs[pid].regs;
      var legacy := LegacyRequest(regs.rsi);
      if legacy.Some? {
        kernel.SetRegs(pid, regs.(rsi := legacy.value));
        if legacy.value == TCGETS {
          termios2 := termios2[pid := regs.rdx];
        }
      }
    }

    method RewriteOther(pid: Pid)
      requires Ready(pid)
      modifies this`termios2, kernel
      ensures var p, v := old(kernel.procs)[pid], old(ViewOf(pid));
              var asked := IsTermios2(config.env, p.regs) && p.regs.rsi == TCGETS2;
              Became(pid, v.(termios2 := if asked then Some(p.regs.rdx) else v.termios2),
                     p.(regs := OtherRewrites(config.env, p.regs, p.mem)))
    {
      Unmoved(kernel.procs, pid);
      var regs := kernel.procs[pid].regs;
      if regs.origRax == SYS_EPOLL_CREATE1 && config.env.epollCreate1Missing {
        kernel.SetRegs(pid, regs.(origRax := SYS_EPOLL_CREATE, rax := SYS_EPOLL_CREATE, rdi := 1));
      } else if regs.origRax == SYS_PRLIMIT64 && config.env.prlimit64Missing {
        if regs.rdi == 0 {
          var setting := regs.rdx != 0;
          var number := if setting then SYS_SETRLIMIT else SYS_GETRLIMIT;
          var limits := if setting then regs.rdx else regs.r10;
          kernel.SetRegs(pid, regs.(origRax := number, rax := number, rdi := regs.rsi, rsi := limits));
        }
      } else if regs.origRax == SYS_IOCTL && config.env.before2_6_20 {
        SetupTermios2(pid);
      } else if regs.origRax in {SYS_CLOCK_GETTIME, SYS_CLOCK_GETRES, SYS_CLOCK_NANOSLEEP} {
        var instead := ReplacedClock(config.env, regs.rdi);
        if instead != regs.rdi {
          kernel.SetRegs(pid, regs.(rdi := instead));
        }
      } else if regs.origRax == SYS_PPOLL && config.env.ppollMissing {
        var ms := -1;
        if regs.rdx != 0 {
          var raw := kernel.Read(pid, regs.rdx, 16);
          if raw.Some? {
            ms := Milliseconds(ReadTime(raw.value, 0));
          }
        }
        kernel.SetRegs(pid, regs.(rdx := Wrapped(ms), origRax := SYS_POLL, rax := SYS_POLL));
      }
    }

    method FillSpeeds(pid: Pid, at: U64) returns (ok: bool)
      requires Ready(pid)
      modifies kernel
      ensures ok == SpeedsFilled(at, old(kernel.procs)[pid].mem).0
      ensures var p := old(kernel.procs)[pid];
              kernel.procs == old(kernel.procs)[pid := p.(mem := SpeedsFilled(at, p.mem).1)]
    {
      hide Speed;
      var termios := kernel.Read(pid, at, SPEEDS_AT);
      var speed := if termios.Some? then Speed(FromBytes(termios.value[8..12])) else 0;
      ok := kernel.Write(pid, at + SPEEDS_AT, ToBytes(speed, 4) + ToBytes(speed, 4));
    }

    /** The speeds of a TCGETS2 answer, when they are owed. */
    method FinishTermios2(pid: Pid) returns (after: Regs)
      requires Ready(pid)
      modifies this`termios2, kernel
      ensures var q := SpeedsCompleted(old(ViewOf(pid)).termios2, old(kernel.procs)[pid]);
              after == q.regs && Became(pid, old(ViewOf(pid)).(termios2 := None), old(kernel.procs)[pid].(mem := q.mem))
    {
      hide SpeedsFilled;
      Unmoved(kernel.procs, pid);
      after := kernel.procs[pid].regs;
      if pid !in termios2 {
        return;
      }
      var at := termios2[pid];
      termios2 := termios2 - {pid};
      if after.rax == 0 {
        var ok := FillSpeeds(pid, at);
        if !ok {
          after := after.(rax := Unsigned(-EFAULT));
        }
      }
    }

    method CopyStatx(pid: Pid, state: StatxState) returns (ok: bool)
      requires Ready(pid)
      modifies kernel
      ensures ok == StatxDone(state, old(kernel.procs)[pid].mem).0
      ensures var p := old(kernel.procs)[pid];
              kernel.procs == old(kernel.procs)[pid := p.(mem := StatxDone(state, p.mem).1)]
    {
      hide BuildStatx;
      Unmoved(kernel.procs, pid);
      var stat := kernel.Read(pid, state.scratch, 144);
      if stat.None? {
        return false;
      }
      ok := kernel.Write(pid, state.statxbuf, BuildStatx(stat.value));
    }

    /** Complete a statx answer, when one is owed. */
    method FinishStatx(pid: Pid, regs: Regs) returns (after: Regs)
      requires Ready(pid)
      modifies this`statx, kernel
      ensures var q := StatxCompleted(old(ViewOf(pid)).statx, old(kernel.procs)[pid].(regs := regs));
              after == q.regs && Became(pid, old(ViewOf(pid)).(statx := None), old(kernel.procs)[pid].(mem := q.mem))
    {
      hide StatxDone;
      Unmoved(kernel.procs, pid);
      after := regs;
      if pid !in statx {
        return;
      }
      var state := statx[pid];
      statx := statx - {pid};
      if regs.rax == 0 {
        var ok := CopyStatx(pid, state);
        if !ok {
          after := regs.(rax := Unsigned(-EFAULT));
        }
      }
    }

    method FinishAnswer(pid: Pid) returns (after: Regs)
      requires Ready(pid)
      modifies this`termios2, this`statx, kernel
      ensures var v := old(ViewOf(pid));
              var q := AnswerCompleted(v, old(kernel.procs)[pid]);
              after == q.regs && Became(pid, v.(termios2 := None, statx := None), old(kernel.procs)[pid].(mem := q.mem))
    {
      hide StatxCompleted;
      hide SpeedsCompleted;
      AnswerCompletedShape(ViewOf(pid), kernel.procs[pid]);
      after := FinishTermios2(pid);
      after := FinishStatx(pid, after);
    }

    /** Fill a random buffer, when one is owed. The emulation's own count is not to be
        taken for an echoed number. */
    method FinishRandom(pid: Pid, regs: Regs, out: Outside)
      returns (after: Regs, synthesized: bool, ghost filled: Filled)
      requires Ready(pid)
      modifies kernel
      ensures var last := Lookup(lastSyscall, pid);
              var p := old(kernel.procs)[pid].(regs := regs);
              && (FillsRandom(config.env, last) ==>
                  FillDone(p.mem, regs.rdi, regs.rsi, out.urandom, out.random, filled.ok, filled.mem))
              && synthesized == (FillsRandom(config.env, last) && filled.ok)
              && after == RandomFilled(config.env, last, p, filled).regs
              && var mem := RandomFilled(config.env, last, p, filled).mem;
              && kernel.procs == old(kernel.procs)[pid := old(kernel.procs)[pid].(mem := mem)]
    {
      hide FillDone;
      Unmoved(kernel.procs, pid);
      after, synthesized, filled := regs, false, Filled(false, kernel.procs[pid].mem);
      if pid !in lastSyscall || lastSyscall[pid] != SYS_GETRANDOM || !config.env.getrandomMissing {
        return;
      }
      var ok, mem := EmulateGetrandom(kernel.procs[pid].mem, regs.rdi, regs.rsi, out.urandom, out.random);
      kernel.SetMem(pid, mem);
      filled := Filled(ok, mem);
      if ok {
        after, synthesized := regs.(rax := regs.rsi), true;
      } else if regs.rax == SYS_GETRANDOM {
        after := regs.(rax := Unsigned(-ENOSYS));
      }
    }

    /** Undo any scratch reservation made at the entry. */
    method FinishReserved(pid: Pid, regs: Regs) returns (after: Regs)
      requires Ready(pid)
      modifies this`reserved
      ensures after == (if old(ViewOf(pid)).reserved.Some? then regs.(rsp := old(ViewOf(pid)).reserved.value) else regs)
      ensures Became(pid, old(ViewOf(pid)).(reserved := None), old(kernel.procs)[pid])
    {
      after := regs;
      if pid in reserved {
        after := regs.(rsp := reserved[pid]);
        reserved := reserved - {pid};
      }
    }

    /** A number given back as the answer means there is no such call. */
    method UndoEcho(pid: Pid, regs: Regs, synthesized: bool) returns (after: Regs)
      ensures var undone := !synthesized && Echoed(config.env, Lookup(lastSyscall, pid), regs);
              after == if undone then regs.(rax := Unsigned(-ENOSYS)) else regs
    {
      after := regs;
      if pid in lastSyscall {
        var nr := lastSyscall[pid];
        var echoed := nr > ABOVE_TABLE && config.env.echoesNumber && regs.origRax == nr;
        if !synthesized && echoed && regs.rax == nr {
          after := regs.(rax := Unsigned(-ENOSYS));
        }
      }
    }

    /** The random buffer and the echoed number, once the registers are otherwise right. */
    method FinishNumbered(pid: Pid, regs: Regs, out: Outside) returns (ghost filled: Filled)
      requires Ready(pid)
      modifies this`lastSyscall, kernel
      ensures var last := old(ViewOf(pid)).lastSyscall;
              var p := old(kernel.procs)[pid].(regs := regs);
              && (FillsRandom(config.env, last) ==>
                  FillDone(p.mem, regs.rdi, regs.rsi, out.urandom, out.random, filled.ok, filled.mem))
              && Became(pid, old(ViewOf(pid)).(lastSyscall := None),
                        EchoUndone(config.env, last, RandomFilled(config.env, last, p, filled), filled))
    {
      hide RandomFilled;
      hide FillDone;
      hide Echoed;
      ghost var p := kernel.procs[pid].(regs := regs);
      var after, synthesized;
      after, synthesized, filled := FinishRandom(pid, regs, out);
      RandomFilledShape(config.env, Lookup(lastSyscall, pid), p, filled);
      after := UndoEcho(pid, after, synthesized);
      kernel.SetRegs(pid, after);
      lastSyscall := lastSyscall - {pid};
    }

    /** A syscall stop on the way out, in either mode. */
    method Exited(pid: Pid, out: Outside) returns (ghost filled: Filled)
      requires Ready(pid)
      modifies this`termios2, this`statx, this`reserved, this`lastSyscall, kernel
      ensures FillHappened(config.env, old(ViewOf(pid)), old(kernel.procs)[pid], out, filled)
      ensures var (w, q) := OnExit(config.env, old(ViewOf(pid)), old(kernel.procs)[pid], filled); Became(pid, w, q)
    {
      hide AnswerCompleted;
      hide RandomFilled;
      hide EchoUndone;
      hide FillDone;
      Unmoved(kernel.procs, pid);
      AnswerCompletedShape(ViewOf(pid), kernel.procs[pid]);
      filled := Filled(false, kernel.procs[pid].mem);
      var regs := kernel.procs[pid].regs;
      if regs.cs != CS_64 {
        return;
      }
      regs := FinishAnswer(pid);
      regs := FinishReserved(pid, regs);
      assert kernel.procs[pid].(regs := regs) == BeforeFill(old(ViewOf(pid)), old(kernel.procs)[pid]);
      filled := FinishNumbered(pid, regs, out);
    }

    /** The emulated timer that a call's first argument names. */
    ghost predicate TimerIsNamed(pid: Pid, out: Outside)
      requires Ready(pid)
      reads this, kernel, emulated, emulated.timerFds
    {
      out.timer == TimerNamed(emulated.timerFds.timers, Signed(kernel.procs[pid].regs.rdi))
    }

    /** A syscall stop of a tracee with an emulation in flight. */
    method InjectedStopped(pid: Pid, out: Outside)
      requires Ready(pid) && pid in emulated.active
      modifies this`stashed, emulated`active, emulated.timerFds, kernel
      ensures var a := OnInjectedSyscall(config, old(ViewOf(pid)), old(kernel.procs)[pid], old(emulated.sequence), out);
              Became(pid, a.view, a.proc) && emulated.sequence == a.sequence
      ensures TimerOpDone(old(emulated.timerFds.Snapshot()), emulated.timerFds.Snapshot(),
                          InjectedOp(old(ViewOf(pid)), old(kernel.procs)[pid], out), out.clock)
    {
      hide Advance;
      hide PipeCapture;
      hide TimerOpDone;
      hide CaptureOp;
      ghost var captured := emulated.Step(pid, out);
      Release(pid);
    }

    /** The end of an emulation frees the signal that was held. */
    method Release(pid: Pid)
      requires Ready(pid)
      modifies this`stashed, kernel
      ensures var v := old(ViewOf(pid));
              Became(pid, if v.active.None? then v.(stash := None) else v,
                     ResumedIn(config.mode, old(kernel.procs)[pid], if v.active.None? then v.stash else None))
    {
      var busy := emulated.Busy(pid);
      if !busy && pid in stashed {
        var sig := stashed[pid];
        stashed := stashed - {pid};
        Resume(pid, Some(sig));
      } else {
        Resume(pid, None);
      }
    }

    /** A stop of the application's own call. */
    method OwnStopped(pid: Pid, out: Outside) returns (ghost filled: Filled)
      requires Ready(pid) && TimerIsNamed(pid, out) && pid !in emulated.active
      modifies this`inSyscall, this`reserved, this`statx, this`termios2, this`lastSyscall
      modifies emulated`active, emulated`sequence, emulated.timerFds, kernel
      ensures old(ViewOf(pid)).inSyscall ==>
              FillHappened(config.env, old(ViewOf(pid)), old(kernel.procs)[pid], out, filled)
      ensures var v, p := old(ViewOf(pid)), old(kernel.procs)[pid];
              var a := OnOwnSyscall(config, pid, v, p, old(emulated.sequence), out, filled);
              Became(pid, a.view, a.proc) && emulated.sequence == a.sequence
      ensures TimerOpDone(old(emulated.timerFds.Snapshot()), emulated.timerFds.Snapshot(),
                          OwnOp(config.env, old(ViewOf(pid)), old(kernel.procs)[pid], old(emulated.sequence), out),
                          out.clock)
    {
      hide Takeover.Begin;
      hide BeginTimerOp;
      hide OnEntry;
      hide OnExit;
      hide TimerOpDone;
      hide FillHappened;
      hide OnSyscallStop;
      ExitIsLeftAlone(config.env, pid, emulated.sequence, kernel.procs[pid].regs, kernel.procs[pid].mem, out);
      Unmoved(kernel.procs, pid);
      filled := Filled(false, kernel.procs[pid].mem);
      var entering := !(pid in inSyscall && inSyscall[pid]);
      var taken := emulated.Begin(config.env, pid, entering, out);
      if !taken {
        filled := SyscallStopped(pid, out);
      }
      Resume(pid, None);
    }

    method SyscallStopped(pid: Pid, out: Outside) returns (ghost filled: Filled)
      requires Ready(pid)
      modifies this`inSyscall, this`reserved, this`statx, this`termios2, this`lastSyscall, kernel
      ensures old(ViewOf(pid)).inSyscall ==>
              FillHappened(config.env, old(ViewOf(pid)), old(kernel.procs)[pid], out, filled)
      ensures var (w, q) := OnSyscallStop(config.env, old(ViewOf(pid)), old(kernel.procs)[pid], out, filled);
              Became(pid, w, q)
    {
      hide OnEntry;
      hide OnExit;
      hide FillDone;
      filled := Filled(false, kernel.procs[pid].mem);
      var entering := !(pid in inSyscall && inSyscall[pid]);
      inSyscall := inSyscall[pid := entering];
      if entering {
        Entered(pid, out);
      } else {
        filled := Exited(pid, out);
      }
    }

    method FilteredStopped(pid: Pid, out: Outside) returns (ghost filled: Filled)
      requires Ready(pid)
      modifies this`expectEntry, this`termios2, this`statx, this`reserved, this`lastSyscall, kernel
      ensures !old(ViewOf(pid)).expectEntry ==>
              FillHappened(config.env, old(ViewOf(pid)), old(kernel.procs)[pid], out, filled)
      ensures var (w, q) := OnFilteredSyscall(config, old(ViewOf(pid)), old(kernel.procs)[pid], filled);
              Became(pid, w, q)
    {
      hide OnExit;
      hide FillHappened;
      filled := Filled(false, kernel.procs[pid].mem);
      if pid in expectEntry {
        expectEntry := expectEntry - {pid};
        kernel.Resume(pid, SyscallTrace, None);
      } else {
        filled := Exited(pid, out);
        Resume(pid, None);
      }
    }

    /** A tracee stopped. */
    method OnStop(pid: Pid, stop: Stop, out: Outside) returns (ghost filled: Filled)
      requires Ready(pid) && TimerIsNamed(pid, out)
      modifies this`configured, this`inSyscall, this`lastSyscall, this`statx, this`termios2, this`reserved,
               this`stashed, this`expectEntry
      modifies emulated`active, emulated`sequence, emulated.timerFds, kernel
      ensures FillMatches(config, old(ViewOf(pid)), old(kernel.procs)[pid], stop, out, filled)
      ensures var v, p := old(ViewOf(pid)), old(kernel.procs)[pid];
              var a := Handle(config, pid, v, p, stop, old(emulated.sequence), out, filled);
              Became(pid, a.view, a.proc) && emulated.sequence == a.sequence
      ensures TimerOpDone(old(emulated.timerFds.Snapshot()), emulated.timerFds.Snapshot(),
                          StopOp(config, old(ViewOf(pid)), old(kernel.procs)[pid], stop, old(emulated.sequence), out),
                          out.clock)
    {
      hide OnOwnSyscall;
      hide OnInjectedSyscall;
      hide OnFilteredSyscall;
      hide OnSignal;
      hide OnSeccomp;
      hide FillHappened;
      hide InjectedOp;
      hide OwnOp;
      filled := Filled(false, kernel.procs[pid].mem);
      match stop {
        case SignalStop(sig) => Stopped(pid, sig);
        case SeccompStop => SeccompStopped(pid, out);
        case EventStop => Resume(pid, None);
        case SyscallStop =>
          var busy := emulated.Busy(pid);
          if config.mode == Filtered {
            filled := FilteredStopped(pid, out);
          } else if busy {
            InjectedStopped(pid, out);
          } else {
            filled := OwnStopped(pid, out);
          }
      }
    }

    /** A tracee ended: what was remembered of it goes, and the child's end is noted or ends the
        tracer too. */
    method OnEnd(pid: Pid, code: int) returns (exit: Option<int>)
      modifies this, emulated`active
      ensures ViewOf(pid) == BLANK
      ensures forall other :: other != pid ==> ViewOf(other) == old(ViewOf(other))
      ensures (exit, mainCode) == Ended(config, old(mainCode), pid, code)
    {
      Forget(pid);
      exit := None;
      if pid == config.child {
        if config.mode == Filtered {
          mainCode := Some(code);
        } else {
          exit := Some(code);
        }
      }
    }

    /** One turn of the loop: due timers are served, and then what the wait for tracees brought is
        handled. A stop finds the timers as the tick left them. */
    method Supervise(ticks: map<TimerFd.Fd, TimerFd.WriteOutcome>, clock: TimerFd.Clock, wait: Wait, out: Outside)
        returns (exit: Option<int>, ghost ticked: TimerFd.State, ghost seen: Outside, ghost filled: Filled)
      requires wait.Halted? ==> Ready(wait.pid)
      modifies this, emulated`active, emulated`sequence, emulated.timerFds, kernel
      ensures (exit, mainCode) == TurnEnds(config, old(mainCode), wait)
      ensures if old(emulated.timerFds.alarm)
              then TimerFd.TickedAll(old(emulated.timerFds.Snapshot()), ticked, clock, ticks)
              else ticked == old(emulated.timerFds.Snapshot())
      ensures wait.Exited? || wait.Signaled? ==>
                ViewOf(wait.pid) == BLANK && forall other :: other != wait.pid ==> ViewOf(other) == old(ViewOf(other))
      ensures wait.NoTracees? || wait.Interrupted? ==> forall pid :: ViewOf(pid) == old(ViewOf(pid))
      ensures !wait.Halted? ==> kernel.procs == old(kernel.procs) && emulated.timerFds.Snapshot() == ticked
      ensures wait.Halted? ==>
                var v, p := old(ViewOf(wait.pid)), old(kernel.procs)[wait.pid];
                var a := Handle(config, wait.pid, v, p, wait.stop, old(emulated.sequence), seen, filled);
                && seen == out.(timer := TimerNamed(ticked.timers, Signed(p.regs.rdi)))
                && FillMatches(config, v, p, wait.stop, seen, filled)
                && Became(wait.pid, a.view, a.proc) && emulated.sequence == a.sequence
                && TimerOpDone(ticked, emulated.timerFds.Snapshot(),
                               StopOp(config, v, p, wait.stop, old(emulated.sequence), seen), seen.clock)
    {
      hide Handle;
      hide StopOp;
      hide FillMatches;
      hide TimerOpDone;
      hide TimerFd.TickedAll;
      emulated.timerFds.Tick(clock, ticks);
      ticked := emulated.timerFds.Snapshot();
      exit, seen, filled := None, out, Filled(false, map[]);
      match wait {
        case Exited(pid, code) => exit := OnEnd(pid, code);
        case Signaled(pid, sig) => exit := OnEnd(pid, 128 + sig);
        case Halted(pid, stop) =>
          var named := TimerNamed(emulated.timerFds.timers, Signed(kernel.procs[pid].regs.rdi));
          seen := out.(timer := named);
          filled := OnStop(pid, stop, out.(timer := named));
        case NoTracees => exit := Some(if mainCode.Some? then mainCode.value else 0);
        case Interrupted =>
      }
    }
  }
}
