/** epoll_pwait on a kernel without it: what rt_sigprocmask, epoll_wait and rt_sigprocmask
    add up to. */
module EpollPwaitRefinement {
  import opened Options
  import opened TraceeMemory
  import opened Words
  import opened PtraceKernel
  import opened Sequences
  import opened Takeover
  import opened Supervision
  import opened StopShapes
  import opened Protocol
  import E = EverySyscallMode
  import R = Runs

  /** The mask an epoll_pwait made with these registers waits under. */
  function WaitMask(entry: Proc): SigMask {
    if entry.regs.r8 != 0 && Mapped(entry.mem, entry.regs.r8, 8) then Installed(Bytes(entry.mem, entry.regs.r8, 8))
    else entry.mask
  }

  /** There is scratch memory below the stack, and the caller's events do not overlap it. */
  predicate Apart(regs: Regs) {
    Scratch(regs.rsp) != 0 && (regs.rsi + 12 * regs.rdx <= Scratch(regs.rsp) || Scratch(regs.rsp) + 8 <= regs.rsi)
  }

  /** Outside the caller's events and the scratch mask nothing has changed. */
  ghost predicate MemoryKept(entry: Proc, mem: Memory) {
    && mem.Keys == entry.mem.Keys
    && forall a :: a in mem && !(entry.regs.rsi <= a < entry.regs.rsi + 12 * entry.regs.rdx)
                   && !(Scratch(entry.regs.rsp) <= a < Scratch(entry.regs.rsp) + 8)
                   ==> mem[a] == entry.mem[a]
  }

  /** The mask to restore is in scratch memory. */
  ghost predicate Saved(entry: Proc, mem: Memory) {
    Apart(entry.regs) ==>
      Mapped(mem, Scratch(entry.regs.rsp), 8) && Bytes(mem, Scratch(entry.regs.rsp), 8) == entry.mask
  }

  predicate IsEpoll(a: Active) { a.Sequence? && a.saved.origRax == SYS_EPOLL_PWAIT }

  /** rt_sigprocmask(SIG_SETMASK, set, oldset, 8) */
  predicate SetsMask(r: Ran, mask: U64, oldMask: U64) {
    r.call == Request6(SYS_RT_SIGPROCMASK, SIG_SETMASK, mask, oldMask, 8, 0, 0)
  }

  predicate MaskSet(entry: Proc, r: Ran) {
    && SetsMask(r, entry.regs.r8, Scratch(entry.regs.rsp))
    && r.before == entry.mask && r.rc >= 0 && r.after == WaitMask(entry)
  }

  /** The wait, with the caller's fd, events, number of events and timeout, under the caller's
      mask. */
  predicate Waited(entry: Proc, r: Ran) {
    && r.call.nr == SYS_EPOLL_WAIT && r.call.a == entry.regs.rdi && r.call.b == entry.regs.rsi
    && r.call.c == entry.regs.rdx && r.call.d == entry.regs.r10
    && r.before == WaitMask(entry) && r.after == WaitMask(entry) && (r.rc >= 0 || IsError(r.rc))
  }

  /** The sequence with its mask not set yet, in the wait, and in the restore. */
  ghost predicate Setting(p: Proc, a: Active, t: Taken) {
    && a.Sequence? && a.running == Some(EpollQueue(a.saved)[0]) && a.queue == EpollQueue(a.saved)[1..]
    && a.results == [] && t.ran == []
    && p.mask == t.entry.mask && p.mem == t.entry.mem
  }

  ghost predicate Waiting(p: Proc, a: Active, t: Taken) {
    && a.Sequence? && a.running == Some(EpollQueue(a.saved)[1]) && a.queue == EpollQueue(a.saved)[2..]
    && |t.ran| == 1 && MaskSet(t.entry, t.ran[0]) && a.results == [t.ran[0].rc]
    && p.mask == WaitMask(t.entry) && MemoryKept(t.entry, p.mem) && Saved(t.entry, p.mem)
  }

  ghost predicate Restoring(p: Proc, a: Active, t: Taken) {
    && a.Sequence? && a.running == Some(EpollQueue(a.saved)[2]) && a.queue == []
    && |t.ran| == 2 && MaskSet(t.entry, t.ran[0]) && Waited(t.entry, t.ran[1])
       && a.results == [t.ran[0].rc, t.ran[1].rc]
    && p.mask == WaitMask(t.entry) && MemoryKept(t.entry, p.mem) && Saved(t.entry, p.mem)
  }

  ghost predicate Inv(p: Proc, v: View, taken: Option<Taken>) {
    v.active.Some? && IsEpoll(v.active.value) && taken.Some? && !taken.value.disturbed ==>
      var a, t := v.active.value, taken.value;
      && a.saved == t.entry.regs && a.outcome == Call(1) && Installable(t.entry.mask)
      && (Setting(p, a, t) || Waiting(p, a, t) || Restoring(p, a, t))
  }

  /** The whole of it, as an epoll_pwait in one piece would be seen: when the mask could not
      be set, nothing happened; otherwise the wait ran under the caller's mask and its result
      is the answer, the events are where the caller wanted them, and the mask is what it
      was, exactly if putting it back worked or it had never changed. */
  ghost predicate Refines(t: Taken, after: Proc, answer: I64) {
    if |t.ran| == 1 then
      && SetsMask(t.ran[0], t.entry.regs.r8, Scratch(t.entry.regs.rsp))
      && IsError(t.ran[0].rc) && answer == t.ran[0].rc
      && after.mask == t.entry.mask && after.mem == t.entry.mem
    else
      && |t.ran| == 3
      && MaskSet(t.entry, t.ran[0]) && Waited(t.entry, t.ran[1]) && answer == t.ran[1].rc
      && SetsMask(t.ran[2], Scratch(t.entry.regs.rsp), 0)
      && MemoryKept(t.entry, after.mem)
      && (Apart(t.entry.regs) ==>
          (after.mask == t.entry.mask <==> t.ran[2].rc >= 0 || WaitMask(t.entry) == t.entry.mask))
  }

  lemma EpollStarts(m: Moment)
    requires E.Stopped(m) && m.stop == SyscallStop && m.v.active.None?
    ensures Inv(AfterStop(m).proc, AfterStop(m).view, SeenAfter(m).taken)
  {
    hide OnSyscallStop;
    hide Executed;
    hide EntryRegs;
    hide EventfdBuffers;
    hide OldReported;
    hide CurrentSetting;
    hide Build;
    hide ReadSpec;
    hide WriteSpec;
    hide ReplacedClock;
    hide Bit;
    hide WaitMask;
    BeginShape(m.c.env, m.pid, m.n, m.q.regs, m.q.mem, !m.v.inSyscall, m.out);
    var b := Begin(m.c.env, m.pid, m.n, m.q.regs, m.q.mem, !m.v.inSyscall, m.out);
    OwnStopStartsNothing(m.c.env, m.v, m.q.(regs := b.regs, mem := b.mem), m.out, m.filled);
  }

  /** The call in flight is the one the sequence names, with its arguments. */
  lemma SettingRuns(p: Proc, q: Proc, a: Active, t: Taken)
    requires Setting(p, a, t) && Executed(p, q) && Makes(p.regs, a) && !a.atEntry && a.saved == t.entry.regs
    ensures CallIn(q.regs)
            == Request6(SYS_RT_SIGPROCMASK, SIG_SETMASK, t.entry.regs.r8, Scratch(t.entry.regs.rsp), 8, 0, 0)
    ensures Signed(q.regs.rax) < 0 ==> IsError(Signed(q.regs.rax)) && q.mem == t.entry.mem && q.mask == t.entry.mask
    ensures Signed(q.regs.rax) >= 0 ==>
            q.mask == WaitMask(t.entry) && MemoryKept(t.entry, q.mem) && Saved(t.entry, q.mem)
  {
    if Signed(q.regs.rax) >= 0 && Apart(t.entry.regs) {
      assert Bytes(q.mem, Scratch(t.entry.regs.rsp), 8) == t.entry.mask;
    }
  }

  lemma WaitingRuns(p: Proc, q: Proc, a: Active, t: Taken)
    requires Waiting(p, a, t) && Executed(p, q) && Makes(p.regs, a) && !a.atEntry && a.saved == t.entry.regs
    ensures CallIn(q.regs)
            == Request6(SYS_EPOLL_WAIT, t.entry.regs.rdi, t.entry.regs.rsi, t.entry.regs.rdx, t.entry.regs.r10, 0, 0)
    ensures (Signed(q.regs.rax) >= 0 || IsError(Signed(q.regs.rax)))
    ensures q.mask == WaitMask(t.entry) && MemoryKept(t.entry, q.mem) && Saved(t.entry, q.mem)
  {
    hide WaitMask;
    if Apart(t.entry.regs) {
      assert Bytes(q.mem, Scratch(t.entry.regs.rsp), 8) == Bytes(p.mem, Scratch(t.entry.regs.rsp), 8);
    }
  }

  lemma RestoringRuns(p: Proc, q: Proc, a: Active, t: Taken)
    requires Restoring(p, a, t) && Executed(p, q) && Makes(p.regs, a) && !a.atEntry && a.saved == t.entry.regs
    requires Installable(t.entry.mask)
    ensures CallIn(q.regs) == Request6(SYS_RT_SIGPROCMASK, SIG_SETMASK, Scratch(t.entry.regs.rsp), 0, 8, 0, 0)
    ensures MemoryKept(t.entry, q.mem)
    ensures Signed(q.regs.rax) < 0 ==> q.mask == WaitMask(t.entry)
    ensures Signed(q.regs.rax) >= 0 && Apart(t.entry.regs) ==> q.mask == t.entry.mask
  {
    hide WaitMask;
    InstalledAsIs(t.entry.mask);
  }

  /** The phases do not depend on the registers, nor on the way round. */
  lemma PhaseCarriesOver(p: Proc, q: Proc, a: Active, t: Taken, atEntry: bool, stops: nat)
    requires p.mem == q.mem && p.mask == q.mask && a.Sequence?
    ensures Setting(p, a, t) ==> Setting(q, a.(atEntry := atEntry), t.(stops := stops))
    ensures Waiting(p, a, t) ==> Waiting(q, a.(atEntry := atEntry), t.(stops := stops))
    ensures Restoring(p, a, t) ==> Restoring(q, a.(atEntry := atEntry), t.(stops := stops))
  {
    hide MaskSet;
    hide Waited;
    hide MemoryKept;
    hide Saved;
    hide WaitMask;
  }

  /** An exit stop of the sequence: its next phase, or its end. */
  ghost predicate MovesOn(m: Moved, t: Taken, q: Proc, answer: I64) {
    match m.active
    case Some(b) => Waiting(q, b, t) || Restoring(q, b, t)
    case None => Refines(t, q, answer)
  }

  predicate Exiting(p: Proc, a: Active, t: Taken) {
    && a.Sequence? && !a.atEntry && Makes(p.regs, a) && a.saved == t.entry.regs && a.outcome == Call(1)
    && Installable(t.entry.mask)
  }

  lemma FirstErrorOfTwo(a: I64, b: I64)
    ensures FirstError([a]) == (if IsError(a) then Some(a) else None)
    ensures FirstError([a, b]) == (if IsError(a) then Some(a) else FirstError([b]))
  {
    assert [a, b][1..] == [b] && [a][1..] == [];
  }

  lemma SettingStep(p: Proc, q: Proc, a: Active, t: Taken)
    requires Exiting(p, a, t) && Setting(p, a, t) && Executed(p, q)
    ensures MovesOn(Advance(a, q.regs, None), InjectedStop(t, a, p, q), q,
                    Answer(Collected(a, Signed(q.regs.rax), None)))
  {
    SettingRuns(p, q, a, t);
    hide Executed;
    hide WaitMask;
    hide MemoryKept;
    hide Saved;
    hide Makes;
    hide Patched;
    hide Build;
    var rc := Signed(q.regs.rax);
    FirstErrorOfTwo(rc, rc);
    assert [] + [rc] == [rc];
    assert Collected(a, rc, None).results == [rc];
  }

  lemma WaitingStep(p: Proc, q: Proc, a: Active, t: Taken)
    requires Exiting(p, a, t) && Waiting(p, a, t) && Executed(p, q)
    ensures MovesOn(Advance(a, q.regs, None), InjectedStop(t, a, p, q), q,
                    Answer(Collected(a, Signed(q.regs.rax), None)))
  {
    WaitingRuns(p, q, a, t);
    hide Executed;
    hide WaitMask;
    hide MemoryKept;
    hide Saved;
    hide Makes;
    hide Patched;
    hide Build;
    var rc0, rc := t.ran[0].rc, Signed(q.regs.rax);
    FirstErrorOfTwo(rc0, rc);
    FirstErrorOfTwo(rc, rc);
    assert Collected(a, rc, None).results == [rc0, rc];
    assert [rc0, rc][..1] == [rc0];
  }

  lemma RestoringStep(p: Proc, q: Proc, a: Active, t: Taken)
    requires Exiting(p, a, t) && Restoring(p, a, t) && Executed(p, q)
    ensures MovesOn(Advance(a, q.regs, None), InjectedStop(t, a, p, q), q,
                    Answer(Collected(a, Signed(q.regs.rax), None)))
  {
    RestoringRuns(p, q, a, t);
    hide Executed;
    hide WaitMask;
    hide MemoryKept;
    hide Saved;
    hide Makes;
    hide Patched;
    hide Build;
    var rc0, rc1, rc := t.ran[0].rc, t.ran[1].rc, Signed(q.regs.rax);
    assert Collected(a, rc, None).results == [rc0, rc1, rc];
    assert [rc0, rc1, rc][1..] == [rc1, rc];
    FirstErrorOfTwo(rc1, rc);
  }

  /** A syscall stop of the sequence. */
  lemma EpollMoves(m: Moment)
    requires E.Stopped(m) && m.stop == SyscallStop && E.Inv(m.p, m.v, m.seen)
    requires m.v.active.Some? && IsEpoll(m.v.active.value) && m.seen.taken.Some? && !m.seen.taken.value.disturbed
    requires Inv(m.p, m.v, m.seen.taken)
    ensures SeenAfter(m).taken.Some? && !SeenAfter(m).taken.value.disturbed
    ensures Inv(AfterStop(m).proc, AfterStop(m).view, SeenAfter(m).taken)
    ensures AfterStop(m).view.active.None? ==>
              Refines(SeenAfter(m).taken.value, AfterStop(m).proc,
                      Answer(Collected(m.v.active.value, Signed(m.q.regs.rax), None)))
  {
    hide E.OnCourse;
    hide E.StackKept;
    hide E.SignalsHeld;
    hide Advance;
    hide Setting;
    hide Waiting;
    hide Restoring;
    hide Refines;
    hide Makes;
    hide Collected;
    hide Answer;
    hide Executed;
    hide EntryRegs;
    var a, t := m.v.active.value, m.seen.taken.value;
    E.InjectedStopIsOurs(m.c.order, m.v, m.seen, m.p, m.q);
    NotAPipe(m.p, a, t, m.q.mem, m.out.reopened);
    assert AfterStop(m).proc.mem == m.q.mem && AfterStop(m).proc.mask == m.q.mask;
    if a.atEntry {
      EntryMoves(m.p, m.q, AfterStop(m).proc, a, t);
    } else {
      ExitMoves(m.p, m.q, AfterStop(m).proc, a, t);
    }
  }

  lemma NotAPipe(p: Proc, a: Active, t: Taken, mem: Memory, reopened: bool)
    requires Setting(p, a, t) || Waiting(p, a, t) || Restoring(p, a, t)
    ensures PipeCapture(a, mem, reopened) == None
  {
  }

  lemma EntryMoves(p: Proc, q: Proc, r: Proc, a: Active, t: Taken)
    requires Setting(p, a, t) || Waiting(p, a, t) || Restoring(p, a, t)
    requires a.atEntry && q.mem == p.mem == r.mem && q.mask == p.mask == r.mask
    ensures Advance(a, q.regs, None) == Moved(Some(a.(atEntry := false)), q.regs)
    ensures var b, u := a.(atEntry := false), InjectedStop(t, a, p, q);
            Setting(r, b, u) || Waiting(r, b, u) || Restoring(r, b, u)
  {
    PhaseCarriesOver(p, r, a, t, false, t.stops + 1);
  }

  lemma ExitMoves(p: Proc, q: Proc, r: Proc, a: Active, t: Taken)
    requires a.Sequence? && (Setting(p, a, t) || Waiting(p, a, t) || Restoring(p, a, t))
    requires Exiting(p, a, t) && Executed(p, q) && r.mem == q.mem && r.mask == q.mask
    ensures var m, u := Advance(a, q.regs, None), InjectedStop(t, a, p, q);
            && (m.active.Some? ==>
                  && m.active.value.Sequence? && m.active.value.saved == a.saved && m.active.value.outcome == a.outcome
                  && (Waiting(r, m.active.value, u) || Restoring(r, m.active.value, u)))
            && (m.active.None? ==> Refines(u, r, Answer(Collected(a, Signed(q.regs.rax), None))))
  {
    hide Setting;
    hide Waiting;
    hide Restoring;
    hide Exiting;
    hide Executed;
    hide Remaining;
    hide Patched;
    hide Build;
    hide MaskSet;
    hide Waited;
    hide MemoryKept;
    hide WaitMask;
    if Setting(p, a, t) {
      SettingStep(p, q, a, t);
    } else if Waiting(p, a, t) {
      WaitingStep(p, q, a, t);
    } else {
      RestoringStep(p, q, a, t);
    }
    E.CollectedKeeps(a, Signed(q.regs.rax), None);
    var m, u := Advance(a, q.regs, None), InjectedStop(t, a, p, q);
    if m.active.Some? {
      PhaseCarriesOver(q, r, m.active.value, u, m.active.value.atEntry, u.stops);
    }
  }

  lemma EpollStopKeepsInv(m: Moment)
    requires E.Stopped(m) && E.Inv(m.p, m.v, m.seen) && Inv(m.p, m.v, m.seen.taken)
    ensures Inv(AfterStop(m).proc, AfterStop(m).view, SeenAfter(m).taken)
  {
    hide E.Inv;
    hide RunsTo;
    hide Inv;
    hide E.OnCourse;
    match m.stop
    case SyscallStop =>
      if m.v.active.None? {
        EpollStarts(m);
      } else {
        EpollInjected(m);
      }
    case SignalStop(_) => EpollSignal(m);
    case EventStop => EpollEvent(m);
    case SeccompStop =>
  }

  lemma EpollInjected(m: Moment)
    requires E.Stopped(m) && m.stop == SyscallStop && E.Inv(m.p, m.v, m.seen) && Inv(m.p, m.v, m.seen.taken)
    requires m.v.active.Some?
    ensures Inv(AfterStop(m).proc, AfterStop(m).view, SeenAfter(m).taken)
  {
    hide RunsTo;
    hide Setting;
    hide Waiting;
    hide Restoring;
    hide Refines;
    hide Collected;
    hide Answer;
    hide Remaining;
    hide Patched;
    hide Build;
    hide PipeCapture;
    hide E.OnCourse;
    hide E.Undisturbed;
    hide E.PhaseAgrees;
    hide E.StackKept;
    if IsEpoll(m.v.active.value) && !m.seen.taken.value.disturbed {
      EpollMoves(m);
    } else if m.v.active.value.Sequence? {
      E.CollectedKeeps(m.v.active.value, Signed(m.q.regs.rax), PipeCapture(m.v.active.value, m.q.mem, m.out.reopened));
    }
  }

  lemma EpollSignal(m: Moment)
    requires E.Stopped(m) && m.stop.SignalStop? && E.Inv(m.p, m.v, m.seen) && Inv(m.p, m.v, m.seen.taken)
    ensures Inv(AfterStop(m).proc, AfterStop(m).view, SeenAfter(m).taken)
  {
    hide E.PhaseAgrees;
    hide E.StackKept;
    hide EntersAsIs;
    hide MaskSet;
    hide Waited;
    hide MemoryKept;
    hide Saved;
    hide WaitMask;
    hide AtXgetbv;
    hide SkippedXgetbv;
    hide RunsTo;
    hide E.Inv;
    if m.v.active.Some? && m.seen.taken.Some? && !m.seen.taken.value.disturbed {
      E.SignalUntouched(m.c.order, m.v, m.seen, m.p, m.stop.sig, m.q);
    }
  }

  lemma EpollEvent(m: Moment)
    requires E.Stopped(m) && m.stop == EventStop && E.Inv(m.p, m.v, m.seen) && Inv(m.p, m.v, m.seen.taken)
    ensures Inv(AfterStop(m).proc, AfterStop(m).view, SeenAfter(m).taken)
  {
    hide Setting;
    hide Waiting;
    hide Restoring;
    hide E.PhaseAgrees;
    hide E.StackKept;
    if m.v.active.Some? && m.v.active.value.Sequence? {
      var a := m.v.active.value;
      InjectedNumbers(a.running.value, a.fd, a.readEnd, a.writeEnd);
    }
  }

  ghost predicate SysInv(s: Sys) {
    forall pid <- s.procs :: Inv(s.procs[pid], ViewIn(s, pid), SeenIn(s, pid).taken)
  }

  lemma StepKeepsEpoll(c: Config, s: Sys, ev: Event, s': Sys)
    requires c.mode == EverySyscall && R.Inv(c, s) && SysInv(s) && Happens(c, s, ev, s')
    ensures SysInv(s')
  {
    hide Inv;
    hide RunsTo;
    hide AfterStop;
    hide SeenAfter;
    hide FillMatches;
    hide E.Inv;
    match ev
    case Born(pid, p) =>
      assert R.PidInv(c, s, pid);
      BlankHasNone(p, SeenIn(s', pid).taken);
    case Gone(_) =>
    case Stops(pid, _, _, _, _) =>
      assert R.PidInv(c, s, pid);
      EpollStopKeepsInv(MomentOf(c, s, ev));
  }

  lemma BlankHasNone(p: Proc, taken: Option<Taken>)
    ensures Inv(p, BLANK, taken) && Inv(p, BLANK.(configured := true), taken)
  {
  }

  lemma {:induction false} RunKeepsEpoll(c: Config, ss: seq<Sys>, evs: seq<Event>, i: nat)
    requires IsRun(c, ss, evs) && i < |ss| && c.mode == EverySyscall
    ensures SysInv(ss[i])
  {
    hide Happens;
    hide R.Inv;
    hide Inv;
    if i == 0 {
      BlankHasNone(ss[0].procs[c.child], None);
    } else {
      RunKeepsEpoll(c, ss, evs, i - 1);
      R.RunKeepsInv(c, ss, evs, i - 1);
      StepKeepsEpoll(c, ss[i - 1], evs[i - 1], ss[i]);
    }
  }

  /** In every run: an emulated epoll_pwait that was not disturbed ends as one call of its
      own would have, with every register but the result as it was. */
  lemma EpollPwaitRefines(c: Config, ss: seq<Sys>, evs: seq<Event>, i: nat)
    requires IsRun(c, ss, evs) && i < |evs| && c.mode == EverySyscall && R.EndsEmulation(ss[i], evs[i], ss[i + 1])
    requires IsEpoll(ViewIn(ss[i], evs[i].pid).active.value)
    requires SeenIn(ss[i], evs[i].pid).taken.Some? && !SeenIn(ss[i], evs[i].pid).taken.value.disturbed
    ensures SeenIn(ss[i + 1], evs[i].pid).taken.Some? && evs[i].pid in ss[i + 1].procs
    ensures var t, p := SeenIn(ss[i + 1], evs[i].pid).taken.value, ss[i + 1].procs[evs[i].pid];
            && p.regs == t.entry.regs.(rax := p.regs.rax)
            && Refines(t, p, Signed(p.regs.rax))
  {
    hide Inv;
    hide RunsTo;
    hide AfterStop;
    hide SeenAfter;
    hide FillMatches;
    hide E.Inv;
    hide Refines;
    hide E.StoppedInTime;
    hide Collected;
    hide PipeCapture;
    hide Answer;
    assert Happens(c, ss[i], evs[i], ss[i + 1]);
    R.InvOf(c, ss, evs, i, evs[i].pid);
    RunKeepsEpoll(c, ss, evs, i);
    R.SequencesEnd(c, ss, evs, i);
    var m := MomentOf(c, ss[i], evs[i]);
    EpollMoves(m);
    EpollCapturesNothing(m.p, m.v, m.seen.taken, m.q.mem, m.out.reopened);
    E.CollectedKeeps(m.v.active.value, Signed(m.q.regs.rax), None);
    SignedUnsigned(Answer(Collected(m.v.active.value, Signed(m.q.regs.rax), None)), 0);
  }

  lemma EpollCapturesNothing(p: Proc, v: View, taken: Option<Taken>, mem: Memory, reopened: bool)
    requires Inv(p, v, taken) && v.active.Some? && IsEpoll(v.active.value) && taken.Some? && !taken.value.disturbed
    ensures PipeCapture(v.active.value, mem, reopened) == None
  {
    NotAPipe(p, v.active.value, taken.value, mem, reopened);
  }
}
