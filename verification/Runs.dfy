/** What holds in every reachable state, and of every step, of the tracer and its tracees. */
module Runs {
  import opened Options
  import opened TraceeMemory
  import opened Words
  import opened PtraceKernel
  import opened Sequences
  import opened Takeover
  import opened Translations
  import opened Supervision
  import opened StopShapes
  import opened Protocol
  import opened TimeMath
  import E = EverySyscallMode
  import F = FilteredMode
  import TimerFd

  predicate TraceeInv(c: Config, pid: Pid, p: Proc, v: View, seen: Seen) {
    match c.mode
    case EverySyscall => E.Inv(p, v, seen)
    case Filtered => F.Inv(c, pid, p, v, CallRsp(seen))
    case SignalsOnly => p.resumed != SyscallTrace && v == BLANK.(configured := v.configured)
  }

  /** A pid in use has its tracee's invariant; of any other pid nothing is remembered. */
  predicate PidInv(c: Config, s: Sys, pid: Pid) {
    if pid in s.procs then TraceeInv(c, pid, s.procs[pid], ViewIn(s, pid), SeenIn(s, pid)) else ViewIn(s, pid) == BLANK
  }

  ghost predicate Inv(c: Config, s: Sys) {
    forall pid :: PidInv(c, s, pid)
  }

  lemma InitialInv(c: Config, s: Sys)
    requires Initial(c, s)
    ensures Inv(c, s)
  {
  }

  lemma BirthAndDeathKeepInv(c: Config, s: Sys, ev: Event, s': Sys)
    requires Inv(c, s) && Happens(c, s, ev, s') && !ev.Stops?
    ensures Inv(c, s')
  {
    forall pid ensures PidInv(c, s', pid) {
      assert PidInv(c, s, pid);
    }
  }

  lemma StopKeepsTraceeInv(c: Config, s: Sys, ev: Event, s': Sys)
    requires ev.Stops? && PidInv(c, s, ev.pid) && StopStep(c, s, ev, s')
    ensures PidInv(c, s', ev.pid)
  {
    hide RunsTo;
    hide AfterStop;
    hide SeenAfter;
    hide E.Inv;
    hide F.Inv;
    hide FillMatches;
    var m := MomentOf(c, s, ev);
    match c.mode
    case EverySyscall => E.StopKeepsInv(m);
    case Filtered => F.StopKeepsInv(m);
    case SignalsOnly => SignalsOnlyStop(m);
  }

  lemma SignalsOnlyStop(m: Moment)
    requires m.c.mode == SignalsOnly && TraceeInv(m.c, m.pid, m.p, m.v, m.seen) && RunsTo(m.c.order, m.p, m.stop, m.q)
    requires !m.stop.SeccompStop?
    ensures !m.stop.SyscallStop?
    ensures var after := AfterStop(m);
            after.proc.resumed == Cont && after.view == BLANK.(configured := after.view.configured)
  {
    hide OnOwnSyscall;
    hide OnSeccomp;
    hide OnFilteredSyscall;
    hide Executed;
    hide EntryRegs;
  }

  lemma NoSyscallStop(c: Config, pid: Pid, p: Proc, v: View, seen: Seen, q: Proc)
    requires TraceeInv(c, pid, p, v, seen)
    ensures c.mode == SignalsOnly ==> !RunsTo(c.order, p, SyscallStop, q)
  {
  }

  lemma StepKeepsInv(c: Config, s: Sys, ev: Event, s': Sys)
    requires Inv(c, s) && Happens(c, s, ev, s')
    ensures Inv(c, s')
  {
    hide TraceeInv;
    hide RunsTo;
    hide AfterStop;
    hide SeenAfter;
    hide FillMatches;
    match ev
    case Stops(stopped, _, _, _, _) =>
      assert PidInv(c, s, stopped);
      StopKeepsTraceeInv(c, s, ev, s');
      forall pid ensures PidInv(c, s', pid) {
        assert PidInv(c, s, pid);
      }
    case Born(_, _) => BirthAndDeathKeepInv(c, s, ev, s');
    case Gone(_) => BirthAndDeathKeepInv(c, s, ev, s');
  }

  lemma {:induction false} RunKeepsInv(c: Config, ss: seq<Sys>, evs: seq<Event>, i: nat)
    requires IsRun(c, ss, evs) && i < |ss|
    ensures Inv(c, ss[i])
  {
    hide Inv;
    hide Happens;
    hide Initial;
    if i == 0 {
      InitialInv(c, ss[0]);
    } else {
      RunKeepsInv(c, ss, evs, i - 1);
      StepKeepsInv(c, ss[i - 1], evs[i - 1], ss[i]);
    }
  }

  lemma InvOf(c: Config, ss: seq<Sys>, evs: seq<Event>, i: nat, pid: Pid)
    requires IsRun(c, ss, evs) && i < |ss|
    ensures PidInv(c, ss[i], pid)
  {
    hide PidInv;
    hide IsRun;
    RunKeepsInv(c, ss, evs, i);
  }

  /** The tracer never takes an entry for an exit, nor a call of its own for the
      application's, nor the reverse. */
  lemma PhasesAgree(c: Config, ss: seq<Sys>, evs: seq<Event>, i: nat, pid: Pid)
    requires IsRun(c, ss, evs) && i < |ss| && c.mode == EverySyscall && pid in ss[i].procs
    ensures var v := ViewIn(ss[i], pid);
            var next := ss[i].procs[pid].next;
            match v.active
            case None => v.inSyscall <==> next == Exit
            case Some(a) => !v.inSyscall && (if a.Sequence? then a.atEntry <==> next == Entry else next == Exit)
  {
    hide IsRun;
    hide E.SignalsHeld;
    hide E.StackKept;
    hide E.InFlight;
    InvOf(c, ss, evs, i, pid);
  }

  /** Nothing is remembered of a pid that is not in use, so a new process that gets it
      inherits nothing. */
  lemma DeadPidsAreBlank(c: Config, ss: seq<Sys>, evs: seq<Event>, i: nat, pid: Pid)
    requires IsRun(c, ss, evs) && i < |ss| && pid !in ss[i].procs
    ensures ViewIn(ss[i], pid) == BLANK
  {
    hide IsRun;
    hide TraceeInv;
    InvOf(c, ss, evs, i, pid);
  }

  /** While an emulation is in flight only SIGSTOP and SIGTRAP are passed on, and a signal
      is kept only then: the last one that was held back. */
  lemma SignalsAreHeld(c: Config, ss: seq<Sys>, evs: seq<Event>, i: nat, pid: Pid)
    requires IsRun(c, ss, evs) && i < |ss| && pid in ss[i].procs
    ensures var v := ViewIn(ss[i], pid);
            && (v.active.Some? ==> ss[i].procs[pid].injected in {None, Some(SIGSTOP), Some(SIGTRAP)})
            && (v.active.Some? ==>
                SeenIn(ss[i], pid).taken.Some? && v.stash == E.LastHeld(SeenIn(ss[i], pid).taken.value.held))
            && (v.stash.Some? ==> v.active.Some?)
  {
    hide IsRun;
    hide E.PhaseAgrees;
    hide E.StackKept;
    hide E.OnCourse;
    hide E.Undisturbed;
    InvOf(c, ss, evs, i, pid);
  }

  /** What is pending in the filtering mode was resumed so that its exit stop comes. */
  lemma PendingIsFollowed(c: Config, ss: seq<Sys>, evs: seq<Event>, i: nat, pid: Pid)
    requires IsRun(c, ss, evs) && i < |ss| && pid in ss[i].procs && c.mode == Filtered && F.FollowsThrough(c)
    ensures var v, p := ViewIn(ss[i], pid), ss[i].procs[pid];
            && (Pending(c.mode, v) ==> p.resumed == SyscallTrace)
            && (v.expectEntry ==> p.next == Entry && p.filtered)
            && (Pending(c.mode, v) && !v.expectEntry ==> p.next == Exit)
  {
    hide IsRun;
    InvOf(c, ss, evs, i, pid);
  }

  /** This step is a syscall stop of an emulation, which it ends. */
  ghost predicate EndsEmulation(s: Sys, ev: Event, s': Sys) {
    && ev.Stops? && ev.stop.SyscallStop?
    && ViewIn(s, ev.pid).active.Some? && ViewIn(s', ev.pid).active.None?
  }

  /** Every sequence, in every run, ends as its plan says. */
  lemma SequencesEnd(c: Config, ss: seq<Sys>, evs: seq<Event>, i: nat)
    requires IsRun(c, ss, evs) && i < |evs| && EndsEmulation(ss[i], evs[i], ss[i + 1])
    requires c.mode == EverySyscall && ViewIn(ss[i], evs[i].pid).active.value.Sequence?
    ensures SeenIn(ss[i + 1], evs[i].pid).taken.Some? && evs[i].pid in ss[i + 1].procs
    ensures var t, p := SeenIn(ss[i + 1], evs[i].pid).taken.value, ss[i + 1].procs[evs[i].pid];
            var a := ViewIn(ss[i], evs[i].pid).active.value;
            var done := Collected(a, Signed(evs[i].q.regs.rax), PipeCapture(a, evs[i].q.mem, evs[i].out.reopened));
            && p.regs == t.entry.regs.(rax := Unsigned(Answer(done)))
            && t.stops <= 2 * t.planned - 1
            && (FirstError(done.results).None? ==> t.stops == 2 * t.planned - 1)
            && E.StoppedInTime(t.ran)
            && p.injected == E.LastHeld(t.held) && ViewIn(ss[i + 1], evs[i].pid).stash.None?
  {
    hide RunsTo;
    hide AfterStop;
    hide SeenAfter;
    hide E.Inv;
    hide FillMatches;
    hide E.StoppedInTime;
    hide Collected;
    hide PipeCapture;
    hide Answer;
    assert Happens(c, ss[i], evs[i], ss[i + 1]);
    InvOf(c, ss, evs, i, evs[i].pid);
    var m := MomentOf(c, ss[i], evs[i]);
    E.SequenceEnds(m);
  }

  /** While a sequence is in flight its stops are within the plan, and exactly on it as long
      as nothing has failed. */
  lemma SequencesAreOnCourse(c: Config, ss: seq<Sys>, evs: seq<Event>, i: nat, pid: Pid)
    requires IsRun(c, ss, evs) && i < |ss| && c.mode == EverySyscall && pid in ss[i].procs
    requires ViewIn(ss[i], pid).active.Some? && ViewIn(ss[i], pid).active.value.Sequence?
    ensures SeenIn(ss[i], pid).taken.Some?
    ensures var a, t := ViewIn(ss[i], pid).active.value, SeenIn(ss[i], pid).taken.value;
            && a.saved == t.entry.regs
            && t.stops + StopsLeft(a) <= 2 * t.planned - 1
            && (FirstError(a.results).None? ==> t.stops + StopsLeft(a) == 2 * t.planned - 1)
  {
    hide IsRun;
    hide E.PhaseAgrees;
    hide E.StackKept;
    hide E.SignalsHeld;
    hide E.Undisturbed;
    InvOf(c, ss, evs, i, pid);
  }

  /** Every stand-in, in every run, leaves the result it was made for, and nothing else but
      the call number. */
  lemma StandInsEnd(c: Config, ss: seq<Sys>, evs: seq<Event>, i: nat)
    requires IsRun(c, ss, evs) && i < |evs| && c.mode == EverySyscall
    requires evs[i].Stops? && evs[i].stop.SyscallStop?
    requires ViewIn(ss[i], evs[i].pid).active.Some? && ViewIn(ss[i], evs[i].pid).active.value.Fixup?
    ensures ViewIn(ss[i + 1], evs[i].pid).active.None?
    ensures SeenIn(ss[i + 1], evs[i].pid).taken.Some? && evs[i].pid in ss[i + 1].procs
    ensures var t, p := SeenIn(ss[i + 1], evs[i].pid).taken.value, ss[i + 1].procs[evs[i].pid];
            var a := ViewIn(ss[i], evs[i].pid).active.value;
            && t.stops == 1
            && p.injected == E.LastHeld(t.held) && ViewIn(ss[i + 1], evs[i].pid).stash.None?
            && (!t.disturbed ==>
                  p.regs == t.entry.regs.(origRax := SYS_GETPID, rax := Unsigned(a.result), rest := p.regs.rest))
  {
    hide RunsTo;
    hide AfterStop;
    hide SeenAfter;
    hide E.Inv;
    hide FillMatches;
    assert Happens(c, ss[i], evs[i], ss[i + 1]);
    InvOf(c, ss, evs, i, evs[i].pid);
    var m := MomentOf(c, ss[i], evs[i]);
    E.StandInEnds(m);
  }

  /** Every stop inside an undisturbed emulation is one of the calls the tracer asked for,
      the right way round, with the registers it was given. */
  lemma InjectedStopsAreOurs(c: Config, ss: seq<Sys>, evs: seq<Event>, i: nat)
    requires IsRun(c, ss, evs) && i < |evs| && c.mode == EverySyscall
    requires evs[i].Stops? && evs[i].stop.SyscallStop?
    requires ViewIn(ss[i], evs[i].pid).active.Some? && ViewIn(ss[i], evs[i].pid).active.value.Sequence?
    requires SeenIn(ss[i], evs[i].pid).taken.Some? && !SeenIn(ss[i], evs[i].pid).taken.value.disturbed
    ensures var a, q := ViewIn(ss[i], evs[i].pid).active.value, evs[i].q;
            && a.running.Some?
            && q.next == (if a.atEntry then Exit else Entry)
            && q.regs == Patched(a.saved, RunningCall(a)).(
                 rip := a.saved.rip, rax := if a.atEntry then RunningCall(a).nr else q.regs.rax, rest := q.regs.rest)
  {
    hide RunsTo;
    hide AfterStop;
    hide SeenAfter;
    hide FillMatches;
    hide E.PhaseAgrees;
    hide E.StackKept;
    hide E.SignalsHeld;
    hide E.Undisturbed;
    hide Patched;
    hide Build;
    assert Happens(c, ss[i], evs[i], ss[i + 1]);
    InvOf(c, ss, evs, i, evs[i].pid);
    var m := MomentOf(c, ss[i], evs[i]);
    E.InjectedStopIsOurs(m.c.order, m.v, m.seen, m.p, m.q);
  }

  /** A call of the application's comes back in this step. */
  predicate Returns(c: Config, s: Sys, ev: Event) {
    ev.Stops? && HandlesExit(c, ViewIn(s, ev.pid), ev.stop)
  }

  /** In both modes: a call whose exit stops, other than one that replaces the registers,
      goes back to the application with the stack pointer it was made with, and leaves
      nothing pending. */
  lemma CallsReturn(c: Config, ss: seq<Sys>, evs: seq<Event>, i: nat)
    requires IsRun(c, ss, evs) && i < |evs| && Returns(c, ss[i], evs[i]) && evs[i].pid in ss[i].procs
    requires c.mode == Filtered ==> F.FollowsThrough(c)
    requires !ReplacesRegs(ss[i].procs[evs[i].pid].regs.origRax)
    ensures evs[i].q.next == Entry && evs[i].pid in ss[i + 1].procs
    ensures CallRsp(SeenIn(ss[i + 1], evs[i].pid)) == Some(ss[i + 1].procs[evs[i].pid].regs.rsp)
    ensures var v := ViewIn(ss[i + 1], evs[i].pid); v.reserved.None? && v.statx.None? && v.termios2.None?
    ensures !Pending(c.mode, ViewIn(ss[i + 1], evs[i].pid))
  {
    hide RunsTo;
    hide AfterStop;
    hide SeenAfter;
    hide E.Inv;
    hide F.Inv;
    hide FillMatches;
    assert Happens(c, ss[i], evs[i], ss[i + 1]);
    InvOf(c, ss, evs, i, evs[i].pid);
    var m := MomentOf(c, ss[i], evs[i]);
    NoSyscallStop(c, m.pid, m.p, m.v, m.seen, m.q);
    match c.mode
    case EverySyscall => E.CallReturns(m);
    case Filtered => F.CallReturns(m);
    case SignalsOnly =>
  }

  /** In the filtering mode the entry stop that follows a filter's stop is skipped, changing
      nothing, and skipped once: the next syscall stop is the exit. */
  lemma EntriesAreSkipped(c: Config, ss: seq<Sys>, evs: seq<Event>, i: nat)
    requires IsRun(c, ss, evs) && i < |evs| && c.mode == Filtered && F.FollowsThrough(c)
    requires evs[i].Stops? && evs[i].stop.SyscallStop?
    ensures var v, v' := ViewIn(ss[i], evs[i].pid), ViewIn(ss[i + 1], evs[i].pid);
            && evs[i].pid in ss[i + 1].procs
            && (v.expectEntry <==> evs[i].q.next == Exit)
            && !v'.expectEntry
            && (v.expectEntry ==> v' == v.(expectEntry := false)
                                  && ss[i + 1].procs[evs[i].pid] == evs[i].q.(
                                       resumed := SyscallTrace, injected := None))
  {
    hide RunsTo;
    hide AfterStop;
    hide SeenAfter;
    hide F.Inv;
    hide FillMatches;
    assert Happens(c, ss[i], evs[i], ss[i + 1]);
    InvOf(c, ss, evs, i, evs[i].pid);
    var m := MomentOf(c, ss[i], evs[i]);
    F.EntryIsSkipped(m);
    if !m.v.expectEntry {
      F.CallReturns(m);
    }
  }

  lemma OwnStopKeepsMask(env: Env, v: View, p: Proc, out: Outside, filled: Filled)
    ensures OnSyscallStop(env, v, p, out, filled).1.mask == p.mask
  {
    hide TranslateCommon;
    hide OtherRewrites;
    hide StatxDone;
  }

  lemma MaskIsLeft(m: Moment)
    ensures AfterStop(m).proc.mask == m.q.mask
  {
    hide Begin;
    hide TranslateCommon;
    hide OnSyscallStop;
    hide OnExit;
    hide Advance;
    hide PipeCapture;
    hide AtXgetbv;
    ExitShape(m.c.env, m.v, m.q, m.filled);
    var b := Begin(m.c.env, m.pid, m.n, m.q.regs, m.q.mem, !m.v.inSyscall, m.out);
    OwnStopKeepsMask(m.c.env, m.v, m.q.(regs := b.regs, mem := b.mem), m.out, m.filled);
  }

  /** SIGKILL and SIGSTOP are never blocked, so every mask is one that can be installed
      again. */
  ghost predicate MasksInstallable(s: Sys) {
    forall pid <- s.procs :: Installable(s.procs[pid].mask)
  }

  lemma StepKeepsMasks(c: Config, s: Sys, ev: Event, s': Sys)
    requires MasksInstallable(s) && Happens(c, s, ev, s')
    ensures MasksInstallable(s')
  {
    hide AfterStop;
    hide SeenAfter;
    hide FillMatches;
    hide Installable;
    hide Executed;
    hide FilterStops;
    if ev.Stops? {
      MaskIsLeft(MomentOf(c, s, ev));
    }
  }

  lemma {:induction false} MasksAreInstallable(c: Config, ss: seq<Sys>, evs: seq<Event>, i: nat)
    requires IsRun(c, ss, evs) && i < |ss|
    ensures MasksInstallable(ss[i])
  {
    hide Happens;
    if i > 0 {
      MasksAreInstallable(c, ss, evs, i - 1);
      StepKeepsMasks(c, ss[i - 1], evs[i - 1], ss[i]);
    }
  }

  /** What the kernel may always do next: a signal that finds the tracee as it is, an entry
      with its registers as they are, or an exit with an error. */
  function PlainStop(p: Proc, stop: Stop): Proc {
    if stop.SignalStop? then if p.resumed == Cont then p.(next := Entry, filtered := false) else p
    else if p.next == Entry then
      p.(next := Exit, filtered := false,
         regs := if p.filtered then p.regs else p.regs.(origRax := p.regs.rax, rip := (p.regs.rip + 2) % TWO64))
    else p.(next := Entry, filtered := false, regs := p.regs.(rax := Unsigned(-1)))
  }

  /** Any tracee can stop by a signal, and one that is traced at a call. */
  predicate CanStop(p: Proc, stop: Stop) { stop.SignalStop? || (stop.SyscallStop? && p.resumed == SyscallTrace) }

  lemma PlainStopRuns(order: StopOrder, p: Proc, stop: Stop)
    requires CanStop(p, stop) && Installable(p.mask)
    ensures RunsTo(order, p, stop, PlainStop(p, stop))
  {
  }

  function Unfilled(v: View, q: Proc): Filled { Filled(q.regs.rsi == 0, BeforeFill(v, q).mem) }

  /** A fill that does not come about because there is no random source. */
  lemma UnfilledHappens(env: Env, v: View, q: Proc, out: Outside)
    requires !out.urandom
    ensures FillHappened(env, v, q, out, Unfilled(v, q))
  {
    hide BeforeFill;
    var mem := BeforeFill(v, q).mem;
    assert Overwrite(mem, q.regs.rdi, []) == mem;
  }

  lemma RunExtends(c: Config, ss: seq<Sys>, evs: seq<Event>, ev: Event, s': Sys)
    requires IsRun(c, ss, evs) && Happens(c, ss[|evs|], ev, s')
    ensures IsRun(c, ss + [s'], evs + [ev])
  {
    hide Happens;
    hide Initial;
    var ss', evs' := ss + [s'], evs + [ev];
    forall i | 0 <= i < |evs'| ensures Happens(c, ss'[i], evs'[i], ss'[i + 1]) {
      if i < |evs| {
        assert Happens(c, ss[i], evs[i], ss[i + 1]);
      }
    }
  }

  /** A run in which this stop is possible can go on with it. */
  lemma StopExtends(c: Config, ss: seq<Sys>, evs: seq<Event>, ev: Event)
    requires IsRun(c, ss, evs) && ev.Stops? && ev.pid in ss[|evs|].procs && !ev.stop.SeccompStop?
    requires var m := MomentOf(c, ss[|evs|], ev);
             RunsTo(c.order, m.p, m.stop, m.q) && FillMatches(c, m.v, m.q, m.stop, m.out, m.filled)
    ensures IsRun(c, ss + [SysAfter(ss[|evs|], MomentOf(c, ss[|evs|], ev))], evs + [ev])
  {
    var s := ss[|evs|];
    hide IsRun;
    hide SysAfter;
    hide RunsTo;
    hide FillMatches;
    RunExtends(c, ss, evs, ev, SysAfter(s, MomentOf(c, s, ev)));
  }

  /** Nothing outside the tracee answers. */
  const NOTHING := Outside(TimerFd.Clock(ZERO, {}), None, None, false, None, false, [])

  /** Runs do not get stuck: in every run any tracee can stop by any signal next, and any
      traced one at its next entry or exit. */
  lemma RunsGoOn(c: Config, ss: seq<Sys>, evs: seq<Event>, pid: Pid, stop: Stop)
    requires IsRun(c, ss, evs) && pid in ss[|evs|].procs && CanStop(ss[|evs|].procs[pid], stop)
    ensures exists ev: Event, s' :: ev.Stops? && ev.pid == pid && ev.stop == stop && IsRun(c, ss + [s'], evs + [ev])
  {
    hide SysAfter;
    hide RunsTo;
    hide FillHappened;
    hide Unfilled;
    hide PlainStop;
    var s := ss[|evs|];
    hide IsRun;
    var p, v := s.procs[pid], ViewIn(s, pid);
    var q := PlainStop(p, stop);
    MasksAreInstallable(c, ss, evs, |evs|);
    PlainStopRuns(c.order, p, stop);
    UnfilledHappens(c.env, v, q, NOTHING);
    var ev := Stops(pid, stop, q, NOTHING, Unfilled(v, q));
    StopExtends(c, ss, evs, ev);
  }
}
