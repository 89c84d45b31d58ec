/** What becomes of every signal, over whole runs: which are kept from the application, and which reach
    it. */
module Signals {
  import opened Options
  import opened TraceeMemory
  import opened Words
  import opened PtraceKernel
  import opened Takeover
  import opened Translations
  import opened Supervision
  import opened Protocol

  const SIGTERM: int := 15

  /** A signal has stopped this tracee since it was born. */
  predicate HadSignal(evs: seq<Event>, i: nat, pid: Pid)
    requires i <= |evs|
  {
    i > 0 &&
    match evs[i - 1]
    case Born(_, _) => HadSignal(evs, i - 1, pid)
    case Gone(p) => p != pid && HadSignal(evs, i - 1, pid)
    case Stops(p, stop, _, _, _) => (p == pid && stop.SignalStop?) || HadSignal(evs, i - 1, pid)
  }

  lemma StopKeepsConfigured(m: Moment)
    requires m.pid != m.c.child
    ensures AfterStop(m).view.configured == (m.v.configured || m.stop.SignalStop?)
  {
    hide Begin;
    hide Delivered;
    hide Handle;
    match m.stop
    case SignalStop(_) => SignalConfigures(m);
    case SyscallStop => OtherStopsDoNot(m);
    case EventStop => OtherStopsDoNot(m);
    case SeccompStop => OtherStopsDoNot(m);
  }

  lemma SignalConfigures(m: Moment)
    requires m.pid != m.c.child && m.stop.SignalStop?
    ensures AfterStop(m).view.configured
  {
    hide Delivered;
  }

  lemma OtherStopsDoNot(m: Moment)
    requires !m.stop.SignalStop?
    ensures AfterStop(m).view.configured == m.v.configured
  {
    hide Begin;
    hide TranslateCommon;
    hide OtherRewrites;
    hide IsTermios2;
    hide EchoUndone;
  }

  /** A tracee other than the child is known to the tracer from its first signal on. */
  lemma {:induction false} ConfiguredSince(c: Config, ss: seq<Sys>, evs: seq<Event>, i: nat, pid: Pid)
    requires IsRun(c, ss, evs) && i < |ss| && pid != c.child
    ensures ViewIn(ss[i], pid).configured <==> HadSignal(evs, i, pid)
  {
    hide AfterStop;
    hide SeenAfter;
    hide RunsTo;
    hide FillMatches;
    if i > 0 {
      ConfiguredSince(c, ss, evs, i - 1, pid);
      assert Happens(c, ss[i - 1], evs[i - 1], ss[i]);
      if evs[i - 1].Stops? && evs[i - 1].pid == pid {
        StopKeepsConfigured(MomentOf(c, ss[i - 1], evs[i - 1]));
      }
    }
  }

  /** The instruction that reads an extended control register. */
  predicate ReadsControl(p: Proc) {
    Mapped(p.mem, p.regs.rip, 8) && Bytes(p.mem, p.regs.rip, 3) == [0x0f, 0x01, 0xd0]
  }

  /** Resumed with this signal, or with none. */
  ghost predicate ResumedWith(q: Proc, after: Proc, sig: Option<int>) { Untouched(q, after) && after.injected == sig }

  /** Resumed behind that instruction, which has read zero. */
  predicate ReadZero(q: Proc, after: Proc) {
    && after.injected == None && after.mem == q.mem && after.mask == q.mask
    && after.regs == q.regs.(rax := 0, rdx := 0, rip := (q.regs.rip + 3) % TWO64)
  }

  /** What the tracer keeps for itself: the stop that a new tracee starts with. */
  predicate IsOwnStop(c: Config, evs: seq<Event>, i: nat)
    requires i < |evs| && evs[i].Stops?
  {
    evs[i].stop == SignalStop(SIGSTOP) && evs[i].pid != c.child && !HadSignal(evs, i, evs[i].pid)
  }

  lemma SignalStopIs(m: Moment)
    requires m.stop.SignalStop?
    ensures var after, sig := AfterStop(m).proc, m.stop.sig;
            if m.pid != m.c.child && !m.v.configured && sig == SIGSTOP then ResumedWith(m.q, after, None)
            else if m.v.active.Some? && sig !in {0, SIGSTOP, SIGTRAP} then
              ResumedWith(m.q, after, None) && AfterStop(m).view.stash == Some(sig)
            else if sig == SIGILL && ReadsControl(m.q) then ReadZero(m.q, after)
            else ResumedWith(m.q, after, if sig == 0 then None else Some(sig))
  {
    assert AtXgetbv(m.q.mem, m.q.regs.rip) <==> ReadsControl(m.q) by {
      var at := m.q.regs.rip;
      if Mapped(m.q.mem, at, 8) {
        var bytes := Bytes(m.q.mem, at, 3);
        assert bytes == [bytes[0], bytes[1], bytes[2]];
      }
    }
    hide AtXgetbv;
    hide ReadsControl;
  }

  /** In every run: a signal reaches the application as it is, and with nothing else changed, unless it
      is the stop that a new tracee starts with; or comes inside an emulation, which keeps it; or is
      an illegal instruction's that is answered instead. */
  lemma SignalsReach(c: Config, ss: seq<Sys>, evs: seq<Event>, i: nat)
    requires IsRun(c, ss, evs) && i < |evs| && evs[i].Stops? && evs[i].stop.SignalStop?
    ensures evs[i].pid in ss[i + 1].procs
    ensures var pid, sig, q := evs[i].pid, evs[i].stop.sig, evs[i].q;
            var v, after := ViewIn(ss[i], pid), ss[i + 1].procs[pid];
            if IsOwnStop(c, evs, i) then ResumedWith(q, after, None)
            else if v.active.Some? && sig !in {0, SIGSTOP, SIGTRAP} then
              ResumedWith(q, after, None) && ViewIn(ss[i + 1], pid).stash == Some(sig)
            else if sig == SIGILL && ReadsControl(q) then ReadZero(q, after)
            else ResumedWith(q, after, if sig == 0 then None else Some(sig))
  {
    hide RunsTo;
    hide FillMatches;
    hide AfterStop;
    hide SeenAfter;
    hide ReadsControl;
    hide ReadZero;
    hide ResumedWith;
    assert Happens(c, ss[i], evs[i], ss[i + 1]);
    if evs[i].pid != c.child {
      ConfiguredSince(c, ss, evs, i, evs[i].pid);
    }
    SignalStopIs(MomentOf(c, ss[i], evs[i]));
  }

  /** The stop that a new tracee starts with is kept from it exactly when no other signal comes
      first. */
  lemma OwnStopIsKeptExactlyWhen(c: Config, ss: seq<Sys>, evs: seq<Event>, i: nat)
    requires IsRun(c, ss, evs) && i < |evs| && evs[i].Stops? && evs[i].stop == SignalStop(SIGSTOP)
    requires evs[i].pid != c.child
    ensures evs[i].pid in ss[i + 1].procs
    ensures ss[i + 1].procs[evs[i].pid].injected == None <==> !HadSignal(evs, i, evs[i].pid)
    ensures ss[i + 1].procs[evs[i].pid].injected in {None, Some(SIGSTOP)}
  {
    hide IsRun;
    hide HadSignal;
    hide ReadsControl;
    SignalsReach(c, ss, evs, i);
  }

  /** A new tracee that SIGTERM stops before its own stop does. */
  function TermFirst(c: Config, child: Proc, pid: Pid, p: Proc, out: Outside): (seq<Sys>, seq<Event>) {
    var filled := Filled(false, map[]);
    var s0 := Sys(map[c.child := ResumedIn(c.mode, child, None)], map[c.child := BLANK.(configured := true)], map[], 0);
    var s1 := s0.(procs := s0.procs[pid := p]);
    var e1 := Stops(pid, SignalStop(SIGTERM), p, out, filled);
    var s2 := SysAfter(s1, MomentOf(c, s1, e1));
    var e2 := Stops(pid, SignalStop(SIGSTOP), s2.procs[pid], out, filled);
    ([s0, s1, s2, SysAfter(s2, MomentOf(c, s2, e2))], [Born(pid, p), e1, e2])
  }

  /** For every two tracees, in every mode: the second is stopped by the tracer's own stop. */
  lemma TermFirstIsStopped(c: Config, child: Proc, pid: Pid, p: Proc, out: Outside)
    requires Newborn(child) && Newborn(p) && pid != c.child
    ensures var (ss, evs) := TermFirst(c, child, pid, p, out);
            IsRun(c, ss, evs) && pid in ss[3].procs && ss[3].procs[pid].injected == Some(SIGSTOP)
  {
    var (ss, evs) := TermFirst(c, child, pid, p, out);
    assert Initial(c, ss[0]);
    assert Happens(c, ss[0], evs[0], ss[1]);
    assert Happens(c, ss[1], evs[1], ss[2]);
    assert Happens(c, ss[2], evs[2], ss[3]);
  }
}
