/** The mode where every call stops: what holds of a tracee and of what the tracer remembers
    of it, between any two stops. */
module EverySyscallMode {
  import opened Options
  import opened Words
  import opened PtraceKernel
  import opened Sequences
  import opened Takeover
  import opened Supervision
  import opened StopShapes
  import opened Protocol

  /** The tracer's idea of entry and exit is the kernel's. */
  predicate PhaseAgrees(p: Proc, v: View) {
    match v.active
    case None => v.inSyscall == (p.next == Exit)
    case Some(a) => !v.inSyscall && (if a.Sequence? then a.atEntry == (p.next == Entry) else p.next == Exit)
  }

  /** Signals are held exactly while an emulation is in flight. */
  predicate SignalsHeld(p: Proc, v: View) {
    && (v.stash.Some? ==> v.active.Some? && Held(v.stash.value))
    && (v.active.Some? ==> p.injected in {None, Some(SIGSTOP), Some(SIGTRAP)})
  }

  /** A moved stack is one that the exit of this very call brings back. */
  predicate StackKept(p: Proc, v: View, callRsp: Option<U64>) {
    && (v.statx.Some? ==> v.reserved.Some?)
    && (v.reserved.Some? || v.termios2.Some? ==>
          v.active.None? && v.inSyscall && p.regs.cs == CS_64 && !ReplacesRegs(p.regs.origRax))
    && (v.active.None? && v.inSyscall && !ReplacesRegs(p.regs.origRax) ==>
          callRsp == Some(if v.reserved.Some? then v.reserved.value else p.regs.rsp))
  }

  function LastHeld(held: seq<int>): Option<int> { if held == [] then None else Some(held[|held| - 1]) }

  predicate NoErrors(ran: seq<Ran>) { forall r <- ran :: !IsError(r.rc) }

  /** How far a sequence has got: at most two stops for each planned call but the first,
      whose entry was the emulated call's own, and exactly that while nothing has failed.
      After a failure the one call left is a cleanup. */
  predicate OnCourse(a: Active, t: Taken) {
    match a
    case Fixup(_) => t.planned == 1 && t.stops == 0 && t.ran == []
    case Sequence(saved, _, queue, running, _, results, _, _, _, _, _) =>
      && saved == t.entry.regs && running.Some?
      && t.stops + StopsLeft(a) <= 2 * t.planned - 1
      && (FirstError(results).None? ==> t.stops + StopsLeft(a) == 2 * t.planned - 1 && NoErrors(t.ran))
      && (FirstError(results).Some? ==> IsAlways(running.value) && t.ran != [] && NoErrors(t.ran[..|t.ran| - 1]))
  }

  /** The tracee is making the tracer's call, or is about to, and nothing else. */
  predicate Undisturbed(p: Proc, a: Active, t: Taken) {
    && NoHandler(p.injected)
    && match a
       case Fixup(_) => StandsIn(p.regs, t.entry.regs)
       case Sequence(saved, gadget, _, _, _, _, _, _, _, _, _) =>
         Makes(p.regs, a) && gadget == WrappingSub(saved.rip, 2) && AtSyscall(p.mem, gadget)
  }

  predicate InFlight(p: Proc, v: View, taken: Option<Taken>) {
    v.active.Some? ==>
      && taken.Some?
      && OnCourse(v.active.value, taken.value)
      && v.stash == LastHeld(taken.value.held)
      && (!taken.value.disturbed ==> Undisturbed(p, v.active.value, taken.value))
  }

  predicate Inv(p: Proc, v: View, seen: Seen) {
    && p.resumed != Cont && !p.filtered && !v.expectEntry
    && (p.resumed == Unresumed ==> p.next == Entry && v == BLANK)
    && PhaseAgrees(p, v)
    && SignalsHeld(p, v)
    && StackKept(p, v, CallRsp(seen))
    && InFlight(p, v, seen.taken)
  }

  /** A stop in this mode. */
  ghost predicate Stopped(m: Moment) {
    m.c.mode == EverySyscall && !m.stop.SeccompStop? && RunsTo(m.c.order, m.p, m.stop, m.q)
  }

  lemma SignalOutside(m: Moment)
    requires Stopped(m) && Inv(m.p, m.v, m.seen) && m.stop.SignalStop? && m.v.active.None?
    ensures Inv(AfterStop(m).proc, AfterStop(m).view, SeenAfter(m))
  {
    hide OnCourse;
    hide Undisturbed;
    hide Executed;
    hide FilterStops;
    hide AtXgetbv;
    hide EntersAsIs;
    hide ReplacesRegs;
  }

  lemma SignalInside(m: Moment)
    requires Stopped(m) && Inv(m.p, m.v, m.seen) && m.stop.SignalStop? && m.v.active.Some?
    ensures Inv(AfterStop(m).proc, AfterStop(m).view, SeenAfter(m))
  {
    hide OnCourse;
    hide Executed;
    hide FilterStops;
    hide AtXgetbv;
    hide EntersAsIs;
    hide Makes;
    hide StandsIn;
    hide AtSyscall;
    CourseIgnoresSignals(m.v.active.value, m.seen.taken.value, m.stop.sig);
    if !m.seen.taken.value.disturbed {
      SignalUntouched(m.c.order, m.v, m.seen, m.p, m.stop.sig, m.q);
    }
  }

  lemma CourseIgnoresSignals(a: Active, t: Taken, sig: int)
    requires OnCourse(a, t)
    ensures OnCourse(a, SignalSeen(t, sig))
  {
  }

  /** A signal stop inside an undisturbed emulation finds the tracee as it was resumed. */
  lemma SignalUntouched(order: StopOrder, v: View, seen: Seen, p: Proc, sig: int, q: Proc)
    requires Inv(p, v, seen) && RunsTo(order, p, SignalStop(sig), q) && v.active.Some?
    requires seen.taken.Some? && !seen.taken.value.disturbed
    ensures Untouched(p, q)
  {
    hide OnCourse;
    hide Executed;
    hide Build;
  }

  lemma EventKeepsInv(m: Moment)
    requires Stopped(m) && Inv(m.p, m.v, m.seen) && m.stop.EventStop?
    ensures Inv(AfterStop(m).proc, AfterStop(m).view, SeenAfter(m))
  {
    hide Executed;
    hide NoErrors;
    hide FirstError;
    hide StopsLeft;
    if m.v.active.Some? && m.v.active.value.Sequence? {
      var a := m.v.active.value;
      InjectedNumbers(a.running.value, a.fd, a.readEnd, a.writeEnd);
    }
  }

  lemma OwnEntryKeepsInv(m: Moment)
    requires Stopped(m) && Inv(m.p, m.v, m.seen)
    requires m.stop.SyscallStop? && m.v.active.None? && !m.v.inSyscall
    ensures Inv(AfterStop(m).proc, AfterStop(m).view, SeenAfter(m))
  {
    hide Executed;
    hide Begin;
    hide OnEntry;
    hide OnExit;
    hide EntersAsIs;
    BeginShape(m.c.env, m.pid, m.n, m.q.regs, m.q.mem, true, m.out);
    var b := Begin(m.c.env, m.pid, m.n, m.q.regs, m.q.mem, true, m.out);
    EntryShape(m.c.env, m.v.(inSyscall := true), m.q.(regs := b.regs, mem := b.mem), m.out);
  }

  lemma OwnExitKeepsInv(m: Moment)
    requires Stopped(m) && Inv(m.p, m.v, m.seen)
    requires m.stop.SyscallStop? && m.v.active.None? && m.v.inSyscall
    ensures Inv(AfterStop(m).proc, AfterStop(m).view, SeenAfter(m))
  {
    hide Begin;
    hide OnEntry;
    hide OnExit;
    hide SigprocmaskDone;
    hide EpollWaitDone;
    BeginShape(m.c.env, m.pid, m.n, m.q.regs, m.q.mem, false, m.out);
    ExitShape(m.c.env, m.v.(inSyscall := false), m.q, m.filled);
  }

  lemma CourseContinues(a: Active, t: Taken, p: Proc, q: Proc, captured: Option<(I64, I64)>)
    requires a.Sequence? && OnCourse(a, t)
    ensures var m := Advance(a, q.regs, captured);
            m.active.Some? ==> OnCourse(m.active.value, InjectedStop(t, a, p, q))
  {
    hide Patched;
    hide Build;
    hide Answer;
    hide SkipToCleanup;
    hide AllSucceeded;
    hide IsAlways;
    var m := Advance(a, q.regs, captured);
    if !a.atEntry && m.active.Some? {
      var results := Collected(a, Signed(q.regs.rax), captured).results;
      if FirstError(a.results).Some? {
        CleanupIsLast(a, q.regs, captured);
      } else {
        ResultTaken(a, Signed(q.regs.rax), captured);
        FirstErrorMeaning(results);
        var ran := InjectedStop(t, a, p, q).ran;
        assert ran[..|ran| - 1] == t.ran;
      }
    }
  }

  lemma CollectedKeeps(a: Active, rax: I64, captured: Option<(I64, I64)>)
    requires a.Sequence?
    ensures var b := Collected(a, rax, captured);
            b == a.(results := b.results, running := None, fd := b.fd, readEnd := b.readEnd, writeEnd := b.writeEnd)
  {
  }

  lemma ResultTaken(a: Active, rax: I64, captured: Option<(I64, I64)>)
    requires a.Sequence?
    ensures rax in Collected(a, rax, captured).results
    ensures forall rc <- a.results :: rc in Collected(a, rax, captured).results
  {
    assert rax in a.results + [rax];
    assert forall rc <- a.results :: rc in a.results + [rax];
  }

  lemma ErrorsStay(a: Active, rax: I64, captured: Option<(I64, I64)>)
    requires a.Sequence?
    ensures FirstError(Collected(a, rax, captured).results).None? ==> FirstError(a.results).None?
  {
    ResultTaken(a, rax, captured);
    FirstErrorMeaning(a.results);
    FirstErrorMeaning(Collected(a, rax, captured).results);
  }

  /** The stop of the call the tracer asked for: which way round it is, and its registers. */
  lemma InjectedStopIsOurs(order: StopOrder, v: View, seen: Seen, p: Proc, q: Proc)
    requires Inv(p, v, seen) && RunsTo(order, p, SyscallStop, q) && v.active.Some?
    requires seen.taken.Some? && !seen.taken.value.disturbed
    ensures var a := v.active.value;
            match a
            case Fixup(_) => q.next == Entry && StandsIn(q.regs.(rax := SYS_GETPID), seen.taken.value.entry.regs)
            case Sequence(saved, gadget, _, _, atEntry, _, _, _, _, _, _) =>
              && q.next == (if atEntry then Exit else Entry)
              && q.regs == Patched(saved, RunningCall(a)).(
                   rip := saved.rip, rax := if atEntry then RunningCall(a).nr else q.regs.rax, rest := q.regs.rest)
              && AtSyscall(q.mem, gadget)
              && (atEntry ==> q.mem == p.mem && q.mask == p.mask)
  {
    hide OnCourse;
    hide SigprocmaskDone;
    hide EpollWaitDone;
    var a := v.active.value;
    if a.Sequence? {
      InjectedNumbers(a.running.value, a.fd, a.readEnd, a.writeEnd);
    }
  }

  /** The entry of some other call, when the tracer waits for one of its own. */
  function StrayEntry(p: Proc, ours: U64): Proc {
    p.(next := Exit, filtered := false, regs := p.regs.(origRax := if ours == 0 then 1 else 0),
       mask := Installed(p.mask))
  }

  /** That the next stop is the tracer's call is certain exactly when no handler can run
      first and the instruction is still there. A SIGTRAP is passed on even here, so a
      handler for it lets the application's own calls be taken for the emulation's. */
  lemma OursExactlyWhen(order: StopOrder, p: Proc, v: View, seen: Seen)
    requires Inv(p, v, seen) && p.resumed == SyscallTrace
    requires v.active.Some? && v.active.value.Sequence? && v.active.value.atEntry && Makes(p.regs, v.active.value)
    ensures (forall q :: RunsTo(order, p, SyscallStop, q) ==> q.regs.origRax == RunningCall(v.active.value).nr)
            <==> NoHandler(p.injected) && AtSyscall(p.mem, v.active.value.gadget)
  {
    hide OnCourse;
    hide Build;
    hide InFlight;
    if !(NoHandler(p.injected) && AtSyscall(p.mem, v.active.value.gadget)) {
      StrayRuns(order, p, v, seen);
    }
  }

  lemma StrayRuns(order: StopOrder, p: Proc, v: View, seen: Seen)
    requires Inv(p, v, seen) && p.resumed == SyscallTrace
    requires v.active.Some? && v.active.value.Sequence? && v.active.value.atEntry && Makes(p.regs, v.active.value)
    requires !(NoHandler(p.injected) && AtSyscall(p.mem, v.active.value.gadget))
    ensures RunsTo(order, p, SyscallStop, StrayEntry(p, RunningCall(v.active.value).nr))
  {
    hide OnCourse;
    hide Build;
    hide InFlight;
  }

  lemma TrapIsPassedOn(c: Config, pid: Pid, v: View, p: Proc)
    requires c.mode == EverySyscall && v.active.Some?
    ensures OnSignal(c, pid, v, p, SIGTRAP) == (Configured(c, pid, v), Resumed(p, SyscallTrace, Some(SIGTRAP)))
  {
  }

  lemma InjectedKeepsInv(m: Moment)
    requires Stopped(m) && Inv(m.p, m.v, m.seen)
    requires m.stop.SyscallStop? && m.v.active.Some?
    ensures Inv(AfterStop(m).proc, AfterStop(m).view, SeenAfter(m))
  {
    hide OnCourse;
    hide Collected;
    hide PipeCapture;
    hide Remaining;
    hide Answer;
    hide Executed;
    hide EntersAsIs;
    var a := m.v.active.value;
    if a.Sequence? {
      CollectedKeeps(a, Signed(m.q.regs.rax), PipeCapture(a, m.q.mem, m.out.reopened));
      CourseContinues(a, m.seen.taken.value, m.p, m.q, PipeCapture(a, m.q.mem, m.out.reopened));
    }
    if !m.seen.taken.value.disturbed {
      InjectedStopIsOurs(m.c.order, m.v, m.seen, m.p, m.q);
    }
  }

  /** Every stop keeps it. */
  lemma StopKeepsInv(m: Moment)
    requires Stopped(m) && Inv(m.p, m.v, m.seen)
    ensures Inv(AfterStop(m).proc, AfterStop(m).view, SeenAfter(m))
  {
    hide Inv;
    hide RunsTo;
    hide Handle;
    hide Observed;
    match m.stop
    case SignalStop(_) =>
      if m.v.active.Some? {
        SignalInside(m);
      } else {
        SignalOutside(m);
      }
    case EventStop => EventKeepsInv(m);
    case SeccompStop => assert false;
    case SyscallStop =>
      if m.v.active.Some? {
        InjectedKeepsInv(m);
      } else if m.v.inSyscall {
        OwnExitKeepsInv(m);
      } else {
        OwnEntryKeepsInv(m);
      }
  }

  /** The record of the calls a sequence made, as it ends: after a failed one at most one
      more. */
  predicate StoppedInTime(ran: seq<Ran>) {
    forall i :: 0 <= i < |ran| && IsError(ran[i].rc) ==> i + 2 >= |ran|
  }

  lemma StoppedSoon(a: Active, t: Taken, p: Proc, q: Proc)
    requires a.Sequence? && !a.atEntry && OnCourse(a, t)
    ensures StoppedInTime(InjectedStop(t, a, p, q).ran)
  {
    hide Patched;
    assert forall i :: 0 <= i < |t.ran| - 1 ==> t.ran[..|t.ran| - 1][i] == t.ran[i];
  }

  /** The stop that ends a sequence: all registers are those at the emulated call's entry,
      except the result; it took no more stops than the plan has, and exactly that many when
      no error was recorded; the last signal held back, if any, is delivered right here. */
  lemma SequenceEnds(m: Moment)
    requires Stopped(m) && m.stop == SyscallStop && Inv(m.p, m.v, m.seen)
    requires m.v.active.Some? && m.v.active.value.Sequence? && AfterStop(m).view.active.None?
    ensures SeenAfter(m).taken.Some?
    ensures var t := SeenAfter(m).taken.value;
            var done := Collected(m.v.active.value, Signed(m.q.regs.rax),
                                  PipeCapture(m.v.active.value, m.q.mem, m.out.reopened));
            && AfterStop(m).proc.regs == t.entry.regs.(rax := Unsigned(Answer(done)))
            && t.stops <= 2 * t.planned - 1
            && (FirstError(done.results).None? ==> t.stops == 2 * t.planned - 1)
            && StoppedInTime(t.ran)
            && AfterStop(m).view.stash.None? && AfterStop(m).proc.injected == LastHeld(t.held)
  {
    hide Executed;
    hide EntersAsIs;
    hide PipeCapture;
    hide Collected;
    hide Answer;
    hide StoppedInTime;
    hide NoErrors;
    hide Undisturbed;
    var a := m.v.active.value;
    CollectedKeeps(a, Signed(m.q.regs.rax), PipeCapture(a, m.q.mem, m.out.reopened));
    ErrorsStay(a, Signed(m.q.regs.rax), PipeCapture(a, m.q.mem, m.out.reopened));
    StoppedSoon(a, m.seen.taken.value, m.p, m.q);
  }

  /** The stop that ends a stand-in: everything but the call number, the result and what
      the kernel overwrites is as it was. */
  lemma StandInEnds(m: Moment)
    requires Stopped(m) && m.stop == SyscallStop && Inv(m.p, m.v, m.seen)
    requires m.v.active.Some? && m.v.active.value.Fixup?
    ensures AfterStop(m).view.active.None? && SeenAfter(m).taken.Some?
    ensures var t := SeenAfter(m).taken.value;
            && t.stops == 1
            && AfterStop(m).view.stash.None? && AfterStop(m).proc.injected == LastHeld(t.held)
            && (!t.disturbed ==>
                  AfterStop(m).proc.regs == t.entry.regs.(
                    origRax := SYS_GETPID, rax := Unsigned(m.v.active.value.result), rest := m.q.regs.rest))
  {
    hide Executed;
    hide EntersAsIs;
    if !m.seen.taken.value.disturbed {
      InjectedStopIsOurs(m.c.order, m.v, m.seen, m.p, m.q);
    }
  }

  /** The application's own call comes back with the stack where it was, and with nothing
      left to put right. */
  lemma CallReturns(m: Moment)
    requires Stopped(m) && m.stop == SyscallStop && Inv(m.p, m.v, m.seen)
    requires m.v.active.None? && m.v.inSyscall && !ReplacesRegs(m.p.regs.origRax)
    ensures m.q.next == Entry
    ensures var v := AfterStop(m).view; v.statx.None? && v.reserved.None? && v.termios2.None?
    ensures CallRsp(SeenAfter(m)) == Some(AfterStop(m).proc.regs.rsp)
  {
    hide OnExit;
    hide OnEntry;
    hide Begin;
    hide SigprocmaskDone;
    hide EpollWaitDone;
    BeginShape(m.c.env, m.pid, m.n, m.q.regs, m.q.mem, false, m.out);
    ExitShape(m.c.env, m.v.(inSyscall := false), m.q, m.filled);
  }
}
