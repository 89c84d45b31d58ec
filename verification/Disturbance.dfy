/** Calls of the application's that get between the calls of an emulation and are taken for
    them: when that can happen, and the runs in which it does. */
module Disturbance {
  import opened Options
  import opened TraceeMemory
  import opened Words
  import opened PtraceKernel
  import opened Sequences
  import opened Takeover
  import opened Supervision
  import opened StopShapes
  import opened Protocol
  import opened FirstSequence
  import E = EverySyscallMode
  import R = Runs

  /** The next syscall stop of a sequence that is about to make a call is the entry of that
      call. */
  predicate MakesOurs(s: Sys, ev: Event) {
    ev.Stops? && ev.stop.SyscallStop? && Waits(ViewIn(s, ev.pid)) ==>
      ev.q.regs.origRax == RunningCall(ViewIn(s, ev.pid).active.value).nr
  }

  predicate Untrapped(evs: seq<Event>) {
    forall i :: 0 <= i < |evs| && evs[i].Stops? ==> evs[i].stop != SignalStop(SIGTRAP)
  }

  /** The instruction a sequence's calls are made from is a `syscall`. */
  predicate CallsBySyscall(s: Sys, pid: Pid) {
    pid in s.procs && ViewIn(s, pid).active.Some? && ViewIn(s, pid).active.value.Sequence? ==>
      AtSyscall(s.procs[pid].mem, ViewIn(s, pid).active.value.gadget)
  }

  ghost predicate BySyscall(ss: seq<Sys>) {
    forall i, pid :: 0 <= i < |ss| ==> CallsBySyscall(ss[i], pid)
  }

  /** In every run, but for those with a SIGTRAP or with another instruction when `traps` or
      `others` is off. */
  ghost predicate AlwaysOurs(c: Config, traps: bool, others: bool) {
    forall ss, evs, i :: IsRun(c, ss, evs) && Admitted(ss, evs, traps, others) && 0 <= i < |evs| ==>
                           MakesOurs(ss[i], evs[i])
  }

  ghost predicate Admitted(ss: seq<Sys>, evs: seq<Event>, traps: bool, others: bool) {
    (traps || Untrapped(evs)) && (others || BySyscall(ss))
  }

  /** This kernel lacks a call that is answered by making others. */
  predicate Emulates(env: Env) {
    env.before2_6_19 || env.before2_6_24 || env.before2_6_30 || env.eventfdMissing || env.timerfdMissing
  }

  /** One that it lacks. */
  function Lacking(env: Env): (nr: U64)
    requires Emulates(env)
    ensures Lacks(env, nr)
  {
    if env.before2_6_30 then SYS_PREADV
    else if env.before2_6_24 then SYS_FCNTL
    else if env.before2_6_19 then SYS_EPOLL_PWAIT
    else if env.timerfdMissing then SYS_TIMERFD_CREATE
    else SYS_EVENTFD
  }

  /** The entry of another call, which the tracer counts as that of its own. */
  predicate Mistaken(s: Sys, ev: Event, s': Sys) {
    && ev.Stops? && ev.stop.SyscallStop? && ev.q.next == Exit
    && Waits(ViewIn(s, ev.pid)) && !MakesOurs(s, ev)
    && ViewIn(s', ev.pid).active == Some(ViewIn(s, ev.pid).active.value.(atEntry := false))
  }

  /** In the last state of a run a tracee of a mode where every call stops is about to make a
      sequence's call. */
  ghost predicate AboutToCall(c: Config, ss: seq<Sys>, evs: seq<Event>, pid: Pid) {
    && IsRun(c, ss, evs) && c.mode == EverySyscall && pid in ss[|evs|].procs
    && Waits(ViewIn(ss[|evs|], pid)) && Makes(ss[|evs|].procs[pid].regs, ViewIn(ss[|evs|], pid).active.value)
  }

  /** A handler may run first, or there is no `syscall` to make the call with. */
  predicate Loose(p: Proc, v: View)
    requires Waits(v)
  {
    !(NoHandler(p.injected) && AtSyscall(p.mem, v.active.value.gadget))
  }

  /** Then the run can go on with another call, mistaken for it. */
  lemma OtherCallEnters(c: Config, ss: seq<Sys>, evs: seq<Event>, pid: Pid) returns (s': Sys, ev: Event)
    requires AboutToCall(c, ss, evs, pid) && Loose(ss[|evs|].procs[pid], ViewIn(ss[|evs|], pid))
    ensures IsRun(c, ss + [s'], evs + [ev]) && ev.Stops? && ev.pid == pid && Mistaken(ss[|evs|], ev, s')
    ensures s'.procs.Keys == ss[|evs|].procs.Keys && s'.procs[pid].mem == ss[|evs|].procs[pid].mem
    ensures s'.views.Keys == ss[|evs|].views.Keys + {pid}
  {
    var s := ss[|evs|];
    var p, v := s.procs[pid], ViewIn(s, pid);
    R.InvOf(c, ss, evs, |evs|, pid);
    E.StrayRuns(c.order, p, v, SeenIn(s, pid));
    var q := E.StrayEntry(p, RunningCall(v.active.value).nr);
    hide IsRun;
    hide RunsTo;
    hide Makes;
    ev := Stops(pid, SyscallStop, q, R.NOTHING, NO_FILL);
    s' := SysAfter(s, MomentOf(c, s, ev));
    R.StopExtends(c, ss, evs, ev);
  }

  /** A SIGTRAP can arrive right there, and is passed on; everything else stays as it is. */
  lemma TrapArrives(c: Config, ss: seq<Sys>, evs: seq<Event>, pid: Pid) returns (s': Sys, ev: Event)
    requires AboutToCall(c, ss, evs, pid)
    ensures ev.Stops? && ev.pid == pid && ev.stop == SignalStop(SIGTRAP)
    ensures AboutToCall(c, ss + [s'], evs + [ev], pid)
    ensures s'.procs == ss[|evs|].procs[
              pid := ss[|evs|].procs[pid].(resumed := SyscallTrace, injected := Some(SIGTRAP))]
    ensures s'.views.Keys == ss[|evs|].views.Keys + {pid} && ViewIn(s', pid).active == ViewIn(ss[|evs|], pid).active
  {
    var s := ss[|evs|];
    var p, v := s.procs[pid], ViewIn(s, pid);
    R.MasksAreInstallable(c, ss, evs, |evs|);
    hide IsRun;
    hide Makes;
    R.PlainStopRuns(c.order, p, SignalStop(SIGTRAP));
    R.InvOf(c, ss, evs, |evs|, pid);
    var q := R.PlainStop(p, SignalStop(SIGTRAP));
    assert p.resumed != Cont && q == p;
    ev := Stops(pid, SignalStop(SIGTRAP), q, R.NOTHING, NO_FILL);
    s' := SysAfter(s, MomentOf(c, s, ev));
    E.TrapIsPassedOn(c, pid, v, q);
    hide RunsTo;
    R.StopExtends(c, ss, evs, ev);
  }

  /** So in every run a SIGTRAP that finds a tracee about to make a sequence's call can be
      followed by the entry of another call, which the tracer counts as its own. */
  lemma TrapLetsInAnother(c: Config, ss: seq<Sys>, evs: seq<Event>, pid: Pid)
      returns (s1: Sys, trap: Event, s2: Sys, entry: Event)
    requires AboutToCall(c, ss, evs, pid)
    ensures IsRun(c, ss + [s1, s2], evs + [trap, entry])
    ensures trap.Stops? && trap.pid == pid && trap.stop == SignalStop(SIGTRAP)
    ensures entry.Stops? && entry.pid == pid && Mistaken(s1, entry, s2)
  {
    assert |ss| == |evs| + 1;
    hide Makes;
    hide IsRun;
    s1, trap := TrapArrives(c, ss, evs, pid);
    s2, entry := OtherCallEnters(c, ss + [s1], evs + [trap], pid);
    assert ss + [s1] + [s2] == ss + [s1, s2] && evs + [trap] + [entry] == evs + [trap, entry];
  }

  ghost predicate AllCallBy(c: Config, ss: seq<Sys>, first: Byte, second: Byte) {
    forall i :: 0 <= i < |ss| ==> CallsBy(c, ss[i], first, second)
  }

  lemma AllWithLast(c: Config, ss: seq<Sys>, s: Sys, first: Byte, second: Byte)
    requires AllCallBy(c, ss, first, second) && CallsBy(c, s, first, second)
    ensures AllCallBy(c, ss + [s], first, second)
  {
    hide CallsBy;
  }

  lemma SyscallThroughout(c: Config, ss: seq<Sys>)
    requires AllCallBy(c, ss, 0x0f, 0x05)
    ensures BySyscall(ss)
  {
    forall i, pid | 0 <= i < |ss| ensures CallsBySyscall(ss[i], pid) {
      assert CallsBy(c, ss[i], 0x0f, 0x05);
    }
  }

  /** Whatever call the kernel lacks: there is a run that gets to the next call of a sequence,
      with either instruction. */
  lemma SequenceIsReached(c: Config, first: Byte, second: Byte) returns (ss: seq<Sys>, evs: seq<Event>)
    requires c.mode == EverySyscall && Emulates(c.env) && Enters(first, second)
    ensures |ss| == |evs| + 1 && AboutToCall(c, ss, evs, c.child)
    ensures Untrapped(evs) && AllCallBy(c, ss, first, second)
    ensures ss[|evs|].procs[c.child].injected.None? && ViewIn(ss[|evs|], c.child).active.value.gadget == 512
  {
    hide Makes;
    hide JustBegun;
    hide RunsTo;
    hide TwoBytes;
    hide Handle;
    hide SeenAfter;
    hide FillHappened;
    hide Happens;
    hide Initial;
    hide FirstEntry;
    var s0, ev0 := Start(c, Lacking(c.env), first, second), FirstEvent(c, Lacking(c.env), first, second);
    StartIsInitial(c, Lacking(c.env), first, second);
    hide Start;
    var s1 := SequenceStarts(c, Lacking(c.env), first, second);
    RunOfOne(c, s0, ev0, s1);
    var p, v := s1.procs[c.child], ViewIn(s1, c.child);
    FirstCallSucceeds(c.order, v, p, first, second);
    SecondCallIsNext(c, v, p, s1.sequence, first, second);
    var ev1 := Stops(c.child, SyscallStop, Succeeded(p), REOPENS, NO_FILL);
    R.StopExtends(c, [s0, s1], [ev0], ev1);
    ss, evs := [s0, s1] + [SysAfter(s1, MomentOf(c, s1, ev1))], [ev0] + [ev1];
  }

  lemma RunOfOne(c: Config, s0: Sys, ev0: Event, s1: Sys)
    requires Initial(c, s0) && Happens(c, s0, ev0, s1)
    ensures IsRun(c, [s0, s1], [ev0])
  {
    hide Initial;
    hide Happens;
  }

  /** With SIGTRAPs let in, or with other instructions: a run in which another call is taken
      for the tracer's. */
  lemma SomeRunStrays(c: Config, traps: bool, others: bool)
    requires c.mode == EverySyscall && Emulates(c.env) && (traps || others)
    ensures !AlwaysOurs(c, traps, others)
  {
    hide IsRun;
    hide TwoBytes;
    hide Makes;
    if others {
      var ss, evs := SequenceIsReached(c, 0xcd, 0x80);
      assert CallsBy(c, ss[|evs|], 0xcd, 0x80);
      NotSyscall(ss[|evs|].procs[c.child].mem);
      var s', ev := OtherCallEnters(c, ss, evs, c.child);
      StraysHere(c, ss, evs, s', ev, traps, others);
    } else {
      var ss, evs := SequenceIsReached(c, 0x0f, 0x05);
      var s1, trap := TrapArrives(c, ss, evs, c.child);
      assert CallsBy(c, ss[|evs|], 0x0f, 0x05);
      AllWithLast(c, ss, s1, 0x0f, 0x05);
      var s2, ev := OtherCallEnters(c, ss + [s1], evs + [trap], c.child);
      AllWithLast(c, ss + [s1], s2, 0x0f, 0x05);
      SyscallThroughout(c, ss + [s1] + [s2]);
      StraysHere(c, ss + [s1], evs + [trap], s2, ev, traps, others);
    }
  }

  lemma NotSyscall(mem: Memory)
    requires TwoBytes(mem, 512, 0xcd, 0x80)
    ensures !AtSyscall(mem, 512)
  {
  }

  lemma StraysHere(c: Config, ss: seq<Sys>, evs: seq<Event>, s': Sys, ev: Event, traps: bool, others: bool)
    requires |ss| == |evs| + 1 && IsRun(c, ss + [s'], evs + [ev]) && Admitted(ss + [s'], evs + [ev], traps, others)
    requires Mistaken(ss[|evs|], ev, s')
    ensures !AlwaysOurs(c, traps, others)
  {
    hide IsRun;
    hide Admitted;
    hide MakesOurs;
    assert (ss + [s'])[|evs|] == ss[|evs|] && (evs + [ev])[|evs|] == ev;
  }

  /** No sequence is in flight, or none that anything has disturbed. */
  predicate Calm(v: View, seen: Seen, sequences: bool) {
    v.active.Some? && v.active.value.Sequence? ==> sequences && seen.taken.Some? && !seen.taken.value.disturbed
  }

  ghost predicate AllCalm(s: Sys, sequences: bool) {
    forall pid <- s.procs :: Calm(ViewIn(s, pid), SeenIn(s, pid), sequences)
  }

  lemma NoSequenceBegins(env: Env, pid: Pid, n: nat, regs: Regs, mem: Memory, entering: bool, out: Outside)
    requires !Emulates(env)
    ensures var b := Begin(env, pid, n, regs, mem, entering, out); b.active.Some? ==> b.active.value.Fixup?
  {
    hide GadgetFor;
    hide OldReported;
    hide CurrentSetting;
  }

  lemma StartsCalm(c: Config, s: Sys, sequences: bool)
    requires Initial(c, s)
    ensures AllCalm(s, sequences)
  {
  }

  /** A stop that is no SIGTRAP, and that leaves a `syscall` to call by, disturbs nothing. */
  lemma StopStaysCalm(m: Moment, sequences: bool)
    requires m.c.mode == EverySyscall && !m.stop.SeccompStop? && Calm(m.v, m.seen, sequences)
    requires sequences || !Emulates(m.c.env)
    requires sequences ==> m.stop != SignalStop(SIGTRAP)
    requires var a := AfterStop(m).view.active;
             sequences && a.Some? && a.value.Sequence? ==> AtSyscall(AfterStop(m).proc.mem, a.value.gadget)
    ensures Calm(AfterStop(m).view, SeenAfter(m), sequences)
  {
    hide Begin;
    hide OnSyscallStop;
    hide Collected;
    hide Remaining;
    hide PipeCapture;
    hide Delivered;
    var b := Begin(m.c.env, m.pid, m.n, m.q.regs, m.q.mem, !m.v.inSyscall, m.out);
    OwnStopStartsNothing(m.c.env, m.v, m.q.(regs := b.regs, mem := b.mem), m.out, m.filled);
    if !sequences {
      NoSequenceBegins(m.c.env, m.pid, m.n, m.q.regs, m.q.mem, !m.v.inSyscall, m.out);
    }
  }

  lemma StepStaysCalm(c: Config, s: Sys, ev: Event, s': Sys, sequences: bool)
    requires c.mode == EverySyscall && R.Inv(c, s) && AllCalm(s, sequences) && Happens(c, s, ev, s')
    requires sequences || !Emulates(c.env)
    requires sequences && ev.Stops? ==> ev.stop != SignalStop(SIGTRAP)
    requires sequences ==> forall pid :: CallsBySyscall(s', pid)
    ensures AllCalm(s', sequences)
  {
    hide R.TraceeInv;
    hide RunsTo;
    hide AfterStop;
    hide SeenAfter;
    hide FillMatches;
    hide AtSyscall;
    match ev
    case Stops(pid, _, _, _, _) =>
      assert CallsBySyscall(s', pid) || !sequences;
      StopStaysCalm(MomentOf(c, s, ev), sequences);
    case Born(pid, _) => assert R.PidInv(c, s, pid);
    case Gone(_) =>
  }

  lemma {:induction false} RunStaysCalm(c: Config, ss: seq<Sys>, evs: seq<Event>, i: nat, sequences: bool)
    requires c.mode == EverySyscall && IsRun(c, ss, evs) && i < |ss|
    requires if sequences then Untrapped(evs) && BySyscall(ss) else !Emulates(c.env)
    ensures AllCalm(ss[i], sequences)
  {
    hide AllCalm;
    hide Happens;
    hide CallsBySyscall;
    if i == 0 {
      StartsCalm(c, ss[0], sequences);
    } else {
      RunStaysCalm(c, ss, evs, i - 1, sequences);
      R.RunKeepsInv(c, ss, evs, i - 1);
      StepStaysCalm(c, ss[i - 1], evs[i - 1], ss[i], sequences);
    }
  }

  lemma StaysOurs(c: Config, ss: seq<Sys>, evs: seq<Event>, i: nat)
    requires IsRun(c, ss, evs) && i < |evs|
    requires c.mode != EverySyscall || !Emulates(c.env) || (Untrapped(evs) && BySyscall(ss))
    ensures MakesOurs(ss[i], evs[i])
  {
    assert |ss| == |evs| + 1;
    hide IsRun;
    hide E.Inv;
    hide BySyscall;
    hide Untrapped;
    hide Patched;
    hide Build;
    if evs[i].Stops? && evs[i].stop.SyscallStop? && Waits(ViewIn(ss[i], evs[i].pid)) {
      var pid := evs[i].pid;
      StopsAreOfTracees(c, ss, evs, i);
      R.InvOf(c, ss, evs, i, pid);
      RunStaysCalm(c, ss, evs, i, Emulates(c.env));
      assert Calm(ViewIn(ss[i], pid), SeenIn(ss[i], pid), Emulates(c.env));
      R.InjectedStopsAreOurs(c, ss, evs, i);
    }
  }

  lemma StopsAreOfTracees(c: Config, ss: seq<Sys>, evs: seq<Event>, i: nat)
    requires IsRun(c, ss, evs) && i < |evs| && evs[i].Stops?
    ensures evs[i].pid in ss[i].procs
  {
    hide RunsTo;
    hide FillMatches;
    hide SysAfter;
    assert Happens(c, ss[i], evs[i], ss[i + 1]);
  }

  /** The call that a sequence is about to make is the one the tracee enters the kernel with, in
      every run: exactly when nothing is emulated by sequences at all, or the runs have neither
      a SIGTRAP nor an emulation that starts from anything but a `syscall`. */
  lemma AlwaysOursExactlyWhen(c: Config, traps: bool, others: bool)
    ensures AlwaysOurs(c, traps, others) <==> c.mode != EverySyscall || !Emulates(c.env) || (!traps && !others)
  {
    hide Happens;
    hide Initial;
    hide Untrapped;
    hide BySyscall;
    hide MakesOurs;
    if c.mode == EverySyscall && Emulates(c.env) && (traps || others) {
      SomeRunStrays(c, traps, others);
    } else {
      forall ss: seq<Sys>, evs: seq<Event>, i
        | IsRun(c, ss, evs) && Admitted(ss, evs, traps, others) && 0 <= i < |evs|
        ensures MakesOurs(ss[i], evs[i])
      {
        StaysOurs(c, ss, evs, i);
      }
    }
  }
}
