/** The filtering mode and the order of its stops. The tracer skips the stop after the filter's
    as an entry; on a kernel that reports the entry first, that stop is the exit. */
module FilterOrder {
  import opened Options
  import opened TraceeMemory
  import opened Words
  import opened PtraceKernel
  import opened Takeover
  import opened TimeMath
  import opened Translations
  import opened Supervision
  import opened StopShapes
  import opened Protocol
  import F = FilteredMode
  import R = Runs
  import TimerFd

  /** A syscall stop is skipped exactly when it is an entry. */
  predicate SkipsEntries(s: Sys, ev: Event) {
    ev.Stops? && ev.stop.SyscallStop? ==> (ViewIn(s, ev.pid).expectEntry <==> ev.q.next == Exit)
  }

  /** At its exit stop, which is the one the kernel says it is, a call gets back the stack
      pointer it was made with, and leaves nothing pending. */
  predicate PutsRight(c: Config, s: Sys, ev: Event, s': Sys) {
    && ev.Stops? && ev.stop.SyscallStop? && ev.q.next == Entry
    && ev.pid in s.procs && !ReplacesRegs(s.procs[ev.pid].regs.origRax)
    ==> && ev.pid in s'.procs && CallRsp(SeenIn(s', ev.pid)) == Some(s'.procs[ev.pid].regs.rsp)
        && !Pending(c.mode, ViewIn(s', ev.pid))
  }

  ghost predicate AlwaysSkipsEntries(c: Config) {
    forall ss, evs, i :: IsRun(c, ss, evs) && 0 <= i < |evs| ==> SkipsEntries(ss[i], evs[i])
  }

  ghost predicate AlwaysPutsRight(c: Config) {
    forall ss, evs, i :: IsRun(c, ss, evs) && 0 <= i < |evs| ==> PutsRight(c, ss[i], evs[i], ss[i + 1])
  }

  /** The next syscall stop of the tracee, after a filter's stop of a call whose exit is
      needed. */
  ghost predicate StopsNext(m: Moment, n: Moment) {
    && m.c.mode == Filtered && m.stop.SeccompStop? && RunsTo(m.c.order, m.p, m.stop, m.q)
    && AtFilter(m.c, m.v, m.q, m.out).2
    && n.c == m.c && n.p == AfterStop(m).proc && n.v == AfterStop(m).view
    && n.stop.SyscallStop? && RunsTo(m.c.order, n.p, n.stop, n.q)
  }

  /** When the entry comes first, that stop is the exit, and it goes by unseen: nothing of the
      tracee is put right, and everything stays pending. */
  lemma ExitIsSwallowed(m: Moment, n: Moment)
    requires StopsNext(m, n) && m.c.order == EntryBeforeFilter
    ensures n.q.next == Entry && n.q.regs == n.p.regs.(rax := n.q.regs.rax, rest := n.q.regs.rest)
    ensures AfterStop(n).view == n.v.(expectEntry := false)
    ensures AfterStop(n).proc == n.q.(resumed := SyscallTrace, injected := None)
  {
    hide AtFilter;
    hide OnExit;
    hide SigprocmaskDone;
    hide EpollWaitDone;
    FilterShape(m.c, m.v, m.q, m.out);
  }

  /** So a statx comes back with its stack pointer still at the scratch memory, and with the
      caller's buffer as the kernel left it; the answer is still to be converted. */
  lemma StatxIsNotFinished(m: Moment, n: Moment)
    requires StopsNext(m, n) && m.c.order == EntryBeforeFilter
    requires m.q.regs.origRax == SYS_STATX && m.q.regs.r8 != 0 && m.c.env.statxMissing
    ensures AfterStop(n).proc.regs.rsp == Scratch(m.q.regs.rsp) && AfterStop(n).proc.mem == n.q.mem
    ensures AfterStop(n).view.reserved == Some(m.q.regs.rsp)
    ensures AfterStop(n).view.statx == Some(StatxState(m.q.regs.r8, Scratch(m.q.regs.rsp)))
  {
    ExitIsSwallowed(m, n);
    hide Executed;
    hide OnFilteredSyscall;
    hide RunsTo;
  }

  const CHILD_VIEW := BLANK.(configured := true)

  const NO_FILL := Filled(false, map[])

  /** The child at a filter's stop, before the tracer handles it. */
  function FirstStop(regs: Regs, mem: Memory): Proc {
    Proc(regs, mem, [0, 0, 0, 0, 0, 0, 0, 0], Exit, true, Cont, None)
  }

  /** A run of two stops: the filter's, and the exit. */
  ghost predicate TwoStops(c: Config, regs: Regs, mem: Memory, out: Outside, ss: seq<Sys>, evs: seq<Event>) {
    && IsRun(c, ss, evs) && |evs| == 2
    && ss[0].procs.Keys == {c.child} && ViewIn(ss[0], c.child) == CHILD_VIEW
    && evs[0] == Stops(c.child, SeccompStop, FirstStop(regs, mem), out, NO_FILL)
    && evs[1].Stops? && evs[1].pid == c.child && evs[1].stop == SyscallStop
  }

  /** The filter's stop of a call whose exit is needed can come first. */
  lemma FirstStopHappens(c: Config, regs: Regs, mem: Memory, out: Outside) returns (s0: Sys, s1: Sys)
    requires c.mode == Filtered && c.order == EntryBeforeFilter && regs.cs == CS_64
    requires AtFilter(c, CHILD_VIEW, FirstStop(regs, mem), out).2
    ensures Initial(c, s0) && s0.procs.Keys == {c.child} && ViewIn(s0, c.child) == CHILD_VIEW
    ensures Happens(c, s0, Stops(c.child, SeccompStop, FirstStop(regs, mem), out, NO_FILL), s1)
    ensures c.child in s1.procs && ViewIn(s1, c.child).expectEntry
    ensures var p := s1.procs[c.child]; p.resumed == SyscallTrace && p.next == Exit && Installable(p.mask)
  {
    hide AtFilter;
    hide Executed;
    var q := FirstStop(regs, mem);
    var p := Proc(regs, mem, q.mask, Entry, false, Unresumed, None);
    s0 := Sys(map[c.child := ResumedIn(c.mode, p, None)], map[c.child := CHILD_VIEW], map[], 0);
    assert Newborn(p) && Initial(c, s0);
    FilterShape(c, CHILD_VIEW, q, out);
    s1 := SysAfter(s0, MomentOf(c, s0, Stops(c.child, SeccompStop, q, out, NO_FILL)));
  }

  lemma TwoStopsHappen(c: Config, regs: Regs, mem: Memory, out: Outside)
    requires c.mode == Filtered && c.order == EntryBeforeFilter && regs.cs == CS_64
    requires AtFilter(c, CHILD_VIEW, FirstStop(regs, mem), out).2
    ensures exists ss, evs :: TwoStops(c, regs, mem, out, ss, evs)
  {
    hide AtFilter;
    hide RunsTo;
    hide AfterStop;
    hide SeenAfter;
    hide FillHappened;
    hide R.PlainStop;
    var s0, s1 := FirstStopHappens(c, regs, mem, out);
    hide Initial;
    var ev0 := Stops(c.child, SeccompStop, FirstStop(regs, mem), out, NO_FILL);
    R.PlainStopRuns(c.order, s1.procs[c.child], SyscallStop);
    var ev1 := Stops(c.child, SyscallStop, R.PlainStop(s1.procs[c.child], SyscallStop), out, NO_FILL);
    var s2 := SysAfter(s1, MomentOf(c, s1, ev1));
    assert Happens(c, s1, ev1, s2);
    RunOfTwo(c, s0, ev0, s1, ev1, s2);
    assert TwoStops(c, regs, mem, out, [s0, s1, s2], [ev0, ev1]);
  }

  lemma RunOfTwo(c: Config, s0: Sys, ev0: Event, s1: Sys, ev1: Event, s2: Sys)
    requires Initial(c, s0) && Happens(c, s0, ev0, s1) && Happens(c, s1, ev1, s2)
    ensures IsRun(c, [s0, s1, s2], [ev0, ev1])
  {
    hide Initial;
    hide Happens;
  }

  /** A call that leaves something to put right is one for which both promises fail. */
  lemma PromisesFail(c: Config, regs: Regs, mem: Memory, out: Outside)
    requires c.mode == Filtered && c.order == EntryBeforeFilter && regs.cs == CS_64
    requires var (w, _, needsExit) := AtFilter(c, CHILD_VIEW, FirstStop(regs, mem), out); needsExit && F.Owes(w)
    ensures !AlwaysSkipsEntries(c) && !AlwaysPutsRight(c)
  {
    hide AtFilter;
    hide RunsTo;
    TwoStopsHappen(c, regs, mem, out);
    var ss, evs :| TwoStops(c, regs, mem, out, ss, evs);
    assert Happens(c, ss[0], evs[0], ss[1]) && Happens(c, ss[1], evs[1], ss[2]);
    var m, n := MomentOf(c, ss[0], evs[0]), MomentOf(c, ss[1], evs[1]);
    FilterShape(c, CHILD_VIEW, m.q, out);
    ExitIsSwallowed(m, n);
    assert !SkipsEntries(ss[1], evs[1]);
    assert !PutsRight(c, ss[1], evs[1], ss[2]);
  }

  /** A call of each kind: a statx, a getrandom, and a futex that waits until a point in
      time. */
  function Caller(nr: U64): Regs { Regs(nr, nr, 0, 9, 0, 64, 8, 0, 2, 1024, CS_64, 0) }

  const PAGE: Memory := map a | 0 <= a < 1024 :: 0

  const ALL_ANSWER := Outside(TimerFd.Clock(ZERO, {}), Some(ZERO), Some(ZERO), false, None, false, [])

  lemma WaitOwes(c: Config)
    requires c.env.before2_6_29
    ensures var (w, _, needsExit) := AtFilter(c, CHILD_VIEW, FirstStop(Caller(SYS_FUTEX), PAGE), ALL_ANSWER);
            needsExit && F.Owes(w)
  {
    hide TimeBytes;
    var regs := Caller(SYS_FUTEX);
    assert BareCommand(9) == FUTEX_WAIT && WaitsUntil(9);
    assert WordsMapped(PAGE, 64, 16) && WordsMapped(PAGE, 512, 16);
    var raw := ReadSpec(PAGE, 64, 16).value;
    assert |TimeBytes(Sub(ReadTime(raw, 0), ZERO))| == 16 by { TimeIs16(Sub(ReadTime(raw, 0), ZERO)); }
    assert RelativeTimeout(64, 1024, PAGE, Some(ZERO)).Reserved?;
  }

  lemma TimeIs16(t: Time)
    ensures |TimeBytes(t)| == 16
  {
  }

  /** The filtering mode keeps both promises exactly when the entry comes after the filter's
      stop, or when no call of this kernel needs its exit. */
  lemma PromisesHoldExactlyWhen(c: Config)
    requires c.mode == Filtered
    ensures AlwaysSkipsEntries(c) <==> F.FollowsThrough(c)
    ensures AlwaysPutsRight(c) <==> F.FollowsThrough(c)
  {
    hide AlwaysSkipsEntries;
    hide AlwaysPutsRight;
    if F.FollowsThrough(c) {
      PromisesHold(c);
    } else if c.env.statxMissing {
      PromisesFail(c, Caller(SYS_STATX), PAGE, ALL_ANSWER);
    } else if c.env.getrandomMissing {
      PromisesFail(c, Caller(SYS_GETRANDOM), PAGE, ALL_ANSWER);
    } else {
      WaitOwes(c);
      PromisesFail(c, Caller(SYS_FUTEX), PAGE, ALL_ANSWER);
    }
  }

  lemma PromisesHold(c: Config)
    requires c.mode == Filtered && F.FollowsThrough(c)
    ensures AlwaysSkipsEntries(c) && AlwaysPutsRight(c)
  {
    hide RunsTo;
    hide AfterStop;
    hide SeenAfter;
    forall ss: seq<Sys>, evs: seq<Event>, i | IsRun(c, ss, evs) && 0 <= i < |evs|
      ensures SkipsEntries(ss[i], evs[i]) && PutsRight(c, ss[i], evs[i], ss[i + 1])
    {
      assert Happens(c, ss[i], evs[i], ss[i + 1]);
      if evs[i].Stops? && evs[i].stop.SyscallStop? {
        R.EntriesAreSkipped(c, ss, evs, i);
        if evs[i].q.next == Entry && !ReplacesRegs(ss[i].procs[evs[i].pid].regs.origRax) {
          R.CallsReturn(c, ss, evs, i);
        }
      }
    }
  }
}
