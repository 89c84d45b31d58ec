/** Which calls answer which: in every run an undisturbed emulation makes the calls of a script,
    in order, and hands on the answer of the right one. */
module EmulationScripts {
  import opened Options
  import opened TraceeMemory
  import opened Words
  import opened PtraceKernel
  import opened Sequences
  import opened Takeover
  import opened Supervision
  import opened StopShapes
  import opened Protocol
  import E = EverySyscallMode
  import R = Runs

  /** The fds that a script's later calls name: the one its first call gave, and a pipe's. */
  datatype Fds = Fds(fd: I64, readEnd: I64, writeEnd: I64)

  function FdsOf(a: Active): Fds
    requires a.Sequence?
  {
    Fds(a.fd, a.readEnd, a.writeEnd)
  }

  /** The calls that an emulated one amounts to, from number and arguments of its own. */
  function Script(pid: Pid, named: nat, regs: Regs, fds: Fds): seq<Request6> {
    var scratch := Scratch(regs.rsp);
    if regs.origRax == SYS_EPOLL_PWAIT then
      [Request6(SYS_RT_SIGPROCMASK, SIG_SETMASK, regs.r8, scratch, 8, 0, 0),
       Request6(SYS_EPOLL_WAIT, regs.rdi, regs.rsi, regs.rdx, regs.r10, 0, 0),
       Request6(SYS_RT_SIGPROCMASK, SIG_SETMASK, scratch, 0, 8, 0, 0)]
    else if regs.origRax == SYS_PREADV then
      [Request6(SYS_LSEEK, regs.rdi, regs.r10, 0, 0, 0, 0),
       Request6(SYS_READV, regs.rdi, regs.rsi, regs.rdx, 0, 0, 0)]
    else if regs.origRax == SYS_PWRITEV then
      [Request6(SYS_LSEEK, regs.rdi, regs.r10, 0, 0, 0, 0),
       Request6(SYS_WRITEV, regs.rdi, regs.rsi, regs.rdx, 0, 0, 0)]
    else if regs.origRax == SYS_FCNTL then
      [Request6(SYS_FCNTL, regs.rdi, F_DUPFD, regs.rdx, 0, 0, 0),
       Request6(SYS_FCNTL, Unsigned(fds.fd), F_SETFD, FD_CLOEXEC, 0, 0, 0)]
    else if regs.origRax == SYS_TIMERFD_CREATE then
      [Request6(SYS_PIPE, scratch, 0, 0, 0, 0, 0), Request6(SYS_CLOSE, Unsigned(fds.writeEnd), 0, 0, 0, 0, 0)]
      + (if Bit(regs.rsi, TFD_NONBLOCK)
         then [Request6(SYS_FCNTL, Unsigned(fds.readEnd), F_SETFL, O_NONBLOCK, 0, 0, 0)] else [])
    else if regs.origRax in {SYS_EVENTFD, SYS_EVENTFD2} then
      var length := |SocketAddress(pid, if named > 0 then named - 1 else 0)| % TWO64;
      [Request6(SYS_SOCKET, AF_UNIX, SOCK_DGRAM, 0, 0, 0, 0),
       Request6(SYS_BIND, Unsigned(fds.fd), scratch, length, 0, 0, 0),
       Request6(SYS_CONNECT, Unsigned(fds.fd), scratch, length, 0, 0, 0)]
      + (if Bit(regs.rsi, EFD_NONBLOCK)
         then [Request6(SYS_FCNTL, Unsigned(fds.fd), F_SETFL, O_NONBLOCK, 0, 0, 0)] else [])
      + (if regs.rdi != 0
         then [Request6(SYS_WRITE, Unsigned(fds.fd), (scratch + 256) % TWO64, 8, 0, 0, 0)] else [])
    else []
  }

  const AF_UNIX: U64 := 1
  const SOCK_DGRAM: U64 := 2

  /** The kernel lacks this call, in a form that is answered by others. */
  predicate Lacked(env: Env, regs: Regs) {
    || (regs.origRax == SYS_EPOLL_PWAIT && env.before2_6_19)
    || (regs.origRax in {SYS_PREADV, SYS_PWRITEV} && env.before2_6_30)
    || (regs.origRax == SYS_FCNTL && regs.rsi == F_DUPFD_CLOEXEC && env.before2_6_24)
    || (regs.origRax in {SYS_EVENTFD, SYS_EVENTFD2} && regs.rdi <= 0xffff_ffff && env.eventfdMissing)
    || (regs.origRax == SYS_TIMERFD_CREATE && env.timerfdMissing)
  }

  /** The same as planned steps. */
  function Plan(pid: Pid, named: nat, regs: Regs): seq<Step> {
    if regs.origRax == SYS_EPOLL_PWAIT then EpollQueue(regs)
    else if regs.origRax == SYS_PREADV then TransferQueue(regs, false)
    else if regs.origRax == SYS_PWRITEV then TransferQueue(regs, true)
    else if regs.origRax == SYS_FCNTL then DupfdQueue(regs)
    else if regs.origRax == SYS_TIMERFD_CREATE then TimerfdQueue(regs)
    else
      EventfdQueue(Scratch(regs.rsp), |SocketAddress(pid, if named > 0 then named - 1 else 0)| % TWO64, regs.rsi,
                   regs.rdi)
  }

  predicate Scripted(regs: Regs) {
    regs.origRax in {SYS_EPOLL_PWAIT, SYS_PREADV, SYS_PWRITEV, SYS_FCNTL, SYS_TIMERFD_CREATE, SYS_EVENTFD, SYS_EVENTFD2}
  }

  /** Each planned step makes the script's call. */
  lemma PlanMakesScript(pid: Pid, named: nat, regs: Regs, fds: Fds)
    requires Scripted(regs)
    ensures var s, plan := Script(pid, named, regs, fds), Plan(pid, named, regs);
            |s| == |plan| && forall k :: 0 <= k < |s| ==> Build(plan[k], fds.fd, fds.readEnd, fds.writeEnd) == s[k]
  {
    hide SocketAddress;
    SignedUnsigned(0, regs.r10);
  }

  /** The i-th result is the answer, or the fd that was adopted is. */
  function OutcomeFor(regs: Regs): Outcome {
    if regs.origRax == SYS_TIMERFD_CREATE then Adopted
    else if regs.origRax in {SYS_EPOLL_PWAIT, SYS_PREADV, SYS_PWRITEV} then Call(1)
    else Call(0)
  }

  function Rcs(ran: seq<Ran>): seq<I64> { seq(|ran|, i requires 0 <= i < |ran| => ran[i].rc) }

  lemma OneMoreRc(ran: seq<Ran>, r: Ran)
    ensures Rcs(ran + [r]) == Rcs(ran) + [r.rc]
  {
  }

  /** The calls so far are the first of the script. */
  predicate Follows(ran: seq<Ran>, script: seq<Request6>) {
    |ran| <= |script| && forall j :: 0 <= j < |ran| ==> ran[j].call == script[j]
  }

  /** Where a sequence stands in its script. */
  predicate OnScript(pid: Pid, a: Active, t: Taken)
    requires a.Sequence?
  {
    var plan, k := Plan(pid, t.named, a.saved), |t.ran|;
    && a.saved == t.entry.regs && Scripted(a.saved) && a.outcome == OutcomeFor(a.saved)
    && k < |plan| && a.running == Some(plan[k]) && a.queue == plan[k + 1..]
    && a.results == Rcs(t.ran) && Follows(t.ran, Script(pid, t.named, a.saved, FdsOf(a)))
    && (GivesFd(a.saved) && t.ran != [] ==> a.fd == t.ran[0].rc)
    && (a.saved.origRax == SYS_TIMERFD_CREATE ==> a.fd == a.readEnd)
  }

  /** Its first call gives the fd that is the answer. */
  predicate GivesFd(regs: Regs) { regs.origRax in {SYS_FCNTL, SYS_EVENTFD, SYS_EVENTFD2} }

  predicate Inv(env: Env, pid: Pid, v: View, taken: Option<Taken>) {
    v.active.Some? && v.active.value.Sequence? && taken.Some? && !taken.value.disturbed ==>
      && OnScript(pid, v.active.value, taken.value) && Lacked(env, v.active.value.saved)
      && (v.active.value.saved.origRax == SYS_TIMERFD_CREATE ==>
            v.active.value.clockid == AsI32(ReplacedClock(env, v.active.value.saved.rdi)))
  }

  lemma ScriptStarts(m: Moment)
    requires m.c.mode == EverySyscall && m.stop == SyscallStop && m.v.active.None?
    ensures Inv(m.c.env, m.pid, AfterStop(m).view, SeenAfter(m).taken)
  {
    hide OnSyscallStop;
    hide EventfdBuffers;
    hide OldReported;
    hide CurrentSetting;
    hide Build;
    hide ReadSpec;
    hide WriteSpec;
    hide ReplacedClock;
    hide SocketAddress;
    hide CanSet;
    var b := Begin(m.c.env, m.pid, m.n, m.q.regs, m.q.mem, !m.v.inSyscall, m.out);
    OwnStopStartsNothing(m.c.env, m.v, m.q.(regs := b.regs, mem := b.mem), m.out, m.filled);
  }

  /** After a failure, only the last call of an epoll_pwait is still made. */
  lemma CleanupIsRest(pid: Pid, named: nat, regs: Regs, k: nat)
    requires Scripted(regs) && 0 < k <= |Plan(pid, named, regs)|
    ensures var plan := Plan(pid, named, regs);
            SkipToCleanup(plan[k..]) == [] || SkipToCleanup(plan[k..]) == plan[|plan| - 1..]
    ensures var plan := Plan(pid, named, regs);
            SkipToCleanup(plan[k..]) != [] ==> |plan| == 3 && forall step <- plan :: !step.Pipe?
  {
    var plan := Plan(pid, named, regs);
    if regs.origRax == SYS_EPOLL_PWAIT {
      assert plan[1..][1..] == plan[2..] && plan[3..] == [];
    } else {
      NoCleanup(plan[k..]);
    }
  }

  /** The call that comes back is the script's next. */
  lemma RunningIsNext(pid: Pid, a: Active, t: Taken)
    requires a.Sequence? && OnScript(pid, a, t)
    ensures |t.ran| < |Script(pid, t.named, a.saved, FdsOf(a))|
    ensures RunningCall(a) == Script(pid, t.named, a.saved, FdsOf(a))[|t.ran|]
  {
    hide Script;
    hide Plan;
    hide Build;
    PlanMakesScript(pid, t.named, a.saved, FdsOf(a));
  }

  lemma FirstNeedsNoFds(pid: Pid, named: nat, regs: Regs, fds: Fds, other: Fds)
    requires Scripted(regs)
    ensures Script(pid, named, regs, fds)[0] == Script(pid, named, regs, other)[0]
    ensures |Script(pid, named, regs, fds)| == |Script(pid, named, regs, other)| >= 2
  {
    hide SocketAddress;
  }

  /** The fds are told by the first call. */
  lemma FdsAreToldFirst(pid: Pid, a: Active, t: Taken, rax: I64, captured: Option<(I64, I64)>)
    requires a.Sequence? && OnScript(pid, a, t) && (captured.Some? ==> PipeRuns(a))
    ensures |t.ran| > 0 ==> FdsOf(Collected(a, rax, captured)) == FdsOf(a)
    ensures |t.ran| > 0 ==> Collected(a, rax, captured).results == Rcs(t.ran) + [rax]
    ensures |t.ran| == 0 && GivesFd(a.saved) ==> Collected(a, rax, captured).fd == rax
    ensures var done := Collected(a, rax, captured);
            a.saved.origRax == SYS_TIMERFD_CREATE ==> done.fd == done.readEnd
  {
    hide SocketAddress;
    hide Script;
    hide Build;
  }

  predicate PipeRuns(a: Active)
    requires a.Sequence?
  {
    !a.atEntry && a.running.Some? && a.running.value.Pipe?
  }

  /** The record after this call. */
  lemma StillFollows(pid: Pid, a: Active, t: Taken, p: Proc, q: Proc, captured: Option<(I64, I64)>)
    requires a.Sequence? && !a.atEntry && OnScript(pid, a, t) && CallIn(q.regs) == RunningCall(a)
    requires captured.Some? ==> PipeRuns(a)
    ensures var fds := FdsOf(Collected(a, Signed(q.regs.rax), captured));
            Follows(InjectedStop(t, a, p, q).ran, Script(pid, t.named, a.saved, fds))
  {
    hide Script;
    hide Plan;
    hide Build;
    hide Collected;
    var done := Collected(a, Signed(q.regs.rax), captured);
    RunningIsNext(pid, a, t);
    E.CollectedKeeps(a, Signed(q.regs.rax), captured);
    FdsAreToldFirst(pid, a, t, Signed(q.regs.rax), captured);
    FirstNeedsNoFds(pid, t.named, a.saved, FdsOf(a), FdsOf(done));
  }

  /** What is left after this call is the rest of the script, or nothing. */
  lemma RestIsLeft(pid: Pid, a: Active, t: Taken, rax: I64, captured: Option<(I64, I64)>)
    requires a.Sequence? && OnScript(pid, a, t) && (captured.Some? ==> PipeRuns(a))
    ensures var done, plan, k := Collected(a, rax, captured), Plan(pid, t.named, a.saved), |t.ran|;
            var left := Remaining(done.queue, done.results);
            && (left != [] ==> left == plan[k + 1..] && done.results == Rcs(t.ran) + [rax])
            && (left == [] && FirstError(done.results).None? ==> k + 1 == |plan|)
  {
    hide SocketAddress;
    hide Script;
    hide Build;
    hide FirstError;
    hide Plan;
    var done, plan, k := Collected(a, rax, captured), Plan(pid, t.named, a.saved), |t.ran|;
    CleanupIsRest(pid, t.named, a.saved, k + 1);
    FirstErrorMeaning(done.results);
    assert done.results[|done.results| - 1] in done.results;
    assert k == 0 && !a.running.value.Pipe? ==> |done.results| == 1;
    assert plan[k] in plan;
  }

  /** A sequence that goes on takes the first of what is left. */
  lemma NextIsTaken(done: Active, regs: Regs)
    requires done.Sequence?
    ensures var left := Remaining(done.queue, done.results);
            && (Next(done, regs).active.Some? <==> left != [])
            && (left != [] ==>
                  Next(done, regs).active.value == done.(queue := left[1..], running := Some(left[0]), atEntry := true))
  {
    hide Patched;
    hide Remaining;
  }

  /** What a sequence that goes on has taken in, and what it has left. */
  lemma ExitLeavesScript(pid: Pid, a: Active, t: Taken, rax: I64, captured: Option<(I64, I64)>)
    requires a.Sequence? && !a.atEntry && OnScript(pid, a, t) && (captured.Some? ==> PipeRuns(a))
    ensures var done, plan, k := Collected(a, rax, captured), Plan(pid, t.named, a.saved), |t.ran|;
            var left := Remaining(done.queue, done.results);
            && done.Sequence? && done.saved == a.saved && done.clockid == a.clockid && done.outcome == a.outcome
            && (left != [] ==>
                  && k + 1 < |plan| && left[0] == plan[k + 1] && left[1..] == plan[k + 2..]
                  && done.results == Rcs(t.ran) + [rax])
            && (GivesFd(a.saved) ==> done.fd == if k == 0 then rax else t.ran[0].rc)
            && (a.saved.origRax == SYS_TIMERFD_CREATE ==> done.fd == done.readEnd)
  {
    FdsAreToldFirst(pid, a, t, rax, captured);
    RestIsLeft(pid, a, t, rax, captured);
    E.CollectedKeeps(a, rax, captured);
    var plan, k := Plan(pid, t.named, a.saved), |t.ran|;
    assert plan[k + 1..] != [] ==> plan[k + 1..][1..] == plan[k + 2..];
    hide Script;
    hide Plan;
    hide Build;
    hide Collected;
    hide Remaining;
    hide Rcs;
    hide Scripted;
    hide OutcomeFor;
  }

  lemma ExitKeepsScript(pid: Pid, a: Active, t: Taken, p: Proc, q: Proc, captured: Option<(I64, I64)>)
    requires a.Sequence? && !a.atEntry && OnScript(pid, a, t) && CallIn(q.regs) == RunningCall(a)
    requires captured.Some? ==> PipeRuns(a)
    ensures var m := Advance(a, q.regs, captured);
            m.active.Some? ==>
              && m.active.value.Sequence? && m.active.value.saved == a.saved && m.active.value.clockid == a.clockid
              && OnScript(pid, m.active.value, InjectedStop(t, a, p, q))
  {
    var rax := Signed(q.regs.rax);
    StillFollows(pid, a, t, p, q, captured);
    ExitLeavesScript(pid, a, t, rax, captured);
    NextIsTaken(Collected(a, rax, captured), q.regs);
    OneMoreRc(t.ran, Ran(CallIn(q.regs), p.mask, rax, q.mask));
    hide Next;
    hide Collected;
    hide Script;
    hide Plan;
    hide Remaining;
    hide Follows;
    hide Rcs;
    hide Scripted;
    hide GivesFd;
    hide OutcomeFor;
    hide CallIn;
  }

  /** What comes back is the call the sequence makes. */
  lemma OurCallReturns(m: Moment)
    requires E.Stopped(m) && m.stop == SyscallStop && E.Inv(m.p, m.v, m.seen)
    requires m.v.active.Some? && m.v.active.value.Sequence? && m.seen.taken.Some? && !m.seen.taken.value.disturbed
    ensures !m.v.active.value.atEntry ==> CallIn(m.q.regs) == RunningCall(m.v.active.value)
  {
    hide RunsTo;
    hide E.Inv;
    E.InjectedStopIsOurs(m.c.order, m.v, m.seen, m.p, m.q);
  }

  lemma InjectedKeepsScript(m: Moment)
    requires E.Stopped(m) && m.stop == SyscallStop && E.Inv(m.p, m.v, m.seen)
    requires m.v.active.Some? && m.v.active.value.Sequence? && Inv(m.c.env, m.pid, m.v, m.seen.taken)
    ensures Inv(m.c.env, m.pid, AfterStop(m).view, SeenAfter(m).taken)
  {
    var a := m.v.active.value;
    hide OnScript;
    hide RunsTo;
    hide E.OnCourse;
    hide E.StackKept;
    hide E.SignalsHeld;
    hide E.Undisturbed;
    hide Collected;
    hide Answer;
    hide Remaining;
    hide Captured;
    hide Lacked;
    hide CallIn;
    hide RunningCall;
    if !m.seen.taken.value.disturbed {
      OurCallReturns(m);
      if a.atEntry {
        EntryKeepsScript(m.pid, a, m.seen.taken.value, m.p, m.q);
      } else {
        ExitKeepsScript(m.pid, a, m.seen.taken.value, m.p, m.q, PipeCapture(a, m.q.mem, m.out.reopened));
      }
    }
  }

  lemma EntryKeepsScript(pid: Pid, a: Active, t: Taken, p: Proc, q: Proc)
    requires a.Sequence? && a.atEntry && OnScript(pid, a, t)
    ensures OnScript(pid, a.(atEntry := false), InjectedStop(t, a, p, q))
  {
    hide Script;
    hide Plan;
    assert FdsOf(a.(atEntry := false)) == FdsOf(a);
  }

  lemma OtherStopKeepsScript(m: Moment)
    requires E.Stopped(m) && !m.stop.SyscallStop? && Inv(m.c.env, m.pid, m.v, m.seen.taken)
    ensures Inv(m.c.env, m.pid, AfterStop(m).view, SeenAfter(m).taken)
  {
    hide Script;
    hide Plan;
    hide Lacked;
    hide Delivered;
    hide ReplacedClock;
    hide RunsTo;
  }

  lemma StopKeepsScript(m: Moment)
    requires E.Stopped(m) && E.Inv(m.p, m.v, m.seen) && Inv(m.c.env, m.pid, m.v, m.seen.taken)
    ensures Inv(m.c.env, m.pid, AfterStop(m).view, SeenAfter(m).taken)
  {
    if m.stop.SyscallStop? {
      if m.v.active.None? {
        ScriptStarts(m);
      } else if m.v.active.value.Sequence? {
        InjectedKeepsScript(m);
      }
    } else {
      OtherStopKeepsScript(m);
    }
  }

  ghost predicate SysInv(c: Config, s: Sys) {
    forall pid <- s.procs :: Inv(c.env, pid, ViewIn(s, pid), SeenIn(s, pid).taken)
  }

  lemma StepKeepsScripts(c: Config, s: Sys, ev: Event, s': Sys)
    requires c.mode == EverySyscall && R.Inv(c, s) && SysInv(c, s) && Happens(c, s, ev, s')
    ensures SysInv(c, s')
  {
    hide OnScript;
    hide Lacked;
    hide RunsTo;
    hide AfterStop;
    hide SeenAfter;
    hide FillMatches;
    hide E.Inv;
    match ev
    case Born(pid, _) => assert R.PidInv(c, s, pid);
    case Gone(_) =>
    case Stops(pid, _, _, _, _) =>
      assert R.PidInv(c, s, pid);
      StopKeepsScript(MomentOf(c, s, ev));
  }

  lemma {:induction false} RunKeepsScripts(c: Config, ss: seq<Sys>, evs: seq<Event>, i: nat)
    requires IsRun(c, ss, evs) && i < |ss| && c.mode == EverySyscall
    ensures SysInv(c, ss[i])
  {
    hide Happens;
    hide R.Inv;
    hide OnScript;
    hide Lacked;
    if i > 0 {
      RunKeepsScripts(c, ss, evs, i - 1);
      R.RunKeepsInv(c, ss, evs, i - 1);
      StepKeepsScripts(c, ss[i - 1], evs[i - 1], ss[i]);
    }
  }

  /** The result that the application gets: of a transfer or a wait the second call's, or the
      first's when that failed; of a new fd the first call's, whatever came after it; of a timer
      its read end. */
  predicate Answers(regs: Regs, ran: seq<Ran>, fds: Fds, answer: I64)
    requires ran != []
  {
    if GivesFd(regs) then answer == ran[0].rc
    else if regs.origRax == SYS_TIMERFD_CREATE then |ran| > 1 && fds.fd >= 0 ==> answer == fds.fd
    else answer == ran[if |ran| > 1 then 1 else 0].rc
  }

  /** The kernel's results are counts, fds or errors. */
  predicate Sane(ran: seq<Ran>) { forall r <- ran :: r.rc >= 0 || IsError(r.rc) }

  lemma AnswerOfFirst(done: Active)
    requires done.Sequence? && done.outcome == Call(0) && done.results != []
    requires done.results[0] >= 0 || IsError(done.results[0])
    ensures Answer(done) == done.results[0]
  {
  }

  lemma AnswerOfSecond(done: Active)
    requires done.Sequence? && done.outcome == Call(1) && done.results != []
    requires forall rc <- done.results :: rc >= 0 || IsError(rc)
    requires |done.results| > 1 ==> !IsError(done.results[0])
    requires |done.results| == 1 ==> IsError(done.results[0])
    ensures Answer(done) == done.results[if |done.results| > 1 then 1 else 0]
  {
    var results := done.results;
    assert results[0] in results;
    if |results| > 1 {
      assert results[1] in results && results[1..][0] == results[1];
      assert FirstError(results) == FirstError(results[1..]);
      assert IsError(results[1]) ==> FirstError(results[1..]) == Some(results[1]);
    }
  }

  /** After an error only a cleanup is still made. */
  lemma ErrorLeavesCleanup(pid: Pid, a: Active, t: Taken)
    requires a.Sequence? && OnScript(pid, a, t) && E.OnCourse(a, t) && t.ran != []
    ensures !IsError(t.ran[0].rc)
  {
    hide Script;
    hide SocketAddress;
    FirstErrorMeaning(a.results);
    assert a.results[0] == t.ran[0].rc && a.results[0] in a.results;
    if |t.ran| > 1 {
      assert t.ran[..|t.ran| - 1][0] == t.ran[0] && t.ran[0] in t.ran[..|t.ran| - 1];
    }
  }

  /** Results are recorded as they come, but for the EIO of a pipe that was lost. */
  lemma ResultsAreRcs(pid: Pid, a: Active, t: Taken, rax: I64, captured: Option<(I64, I64)>)
    requires a.Sequence? && OnScript(pid, a, t) && a.running.Some?
    ensures var done := Collected(a, rax, captured);
            && done.Sequence? && done.outcome == OutcomeFor(a.saved) && done.results != []
            && (a.running.value.Pipe? <==> a.saved.origRax == SYS_TIMERFD_CREATE && t.ran == [])
            && done.results[..|t.ran| + 1] == Rcs(t.ran) + [rax]
            && (|done.results| == |t.ran| + 1 || (a.running.value.Pipe? && captured.None?))
  {
    hide Script;
    hide SocketAddress;
  }

  /** It ends with the script, with an error, or with a pipe that was lost. */
  lemma EndIsEnd(pid: Pid, a: Active, t: Taken, rax: I64, captured: Option<(I64, I64)>)
    requires a.Sequence? && !a.atEntry && OnScript(pid, a, t) && E.OnCourse(a, t)
    requires captured.Some? ==> PipeRuns(a)
    requires var done := Collected(a, rax, captured); Remaining(done.queue, done.results) == []
    ensures |t.ran| + 1 == |Script(pid, t.named, a.saved, FdsOf(a))| || IsError(rax) || (PipeRuns(a) && captured.None?)
  {
    var done, plan, k := Collected(a, rax, captured), Plan(pid, t.named, a.saved), |t.ran|;
    PlanMakesScript(pid, t.named, a.saved, FdsOf(a));
    RestIsLeft(pid, a, t, rax, captured);
    ResultsAreRcs(pid, a, t, rax, captured);
    LastIsAlways(pid, t.named, a.saved, k);
    FirstErrorMeaning(done.results);
    FirstErrorMeaning(a.results);
    hide Script;
    hide Plan;
    hide Build;
    hide Collected;
    hide FirstError;
    hide Remaining;
    if FirstError(a.results).None? && FirstError(done.results).Some? && !(PipeRuns(a) && captured.None?) {
      var rc :| rc in done.results && IsError(rc);
      assert done.results == a.results + [rax];
    }
  }

  lemma LastIsAlways(pid: Pid, named: nat, regs: Regs, k: nat)
    requires Scripted(regs) && k < |Plan(pid, named, regs)|
    ensures IsAlways(Plan(pid, named, regs)[k]) ==> k + 1 == |Plan(pid, named, regs)|
  {
    hide SocketAddress;
  }

  lemma EndIsAnswered(pid: Pid, a: Active, t: Taken, p: Proc, q: Proc, captured: Option<(I64, I64)>)
    requires a.Sequence? && !a.atEntry && OnScript(pid, a, t) && E.OnCourse(a, t)
    requires captured.Some? ==> PipeRuns(a)
    requires Advance(a, q.regs, captured).active.None? && Sane(InjectedStop(t, a, p, q).ran)
    ensures Answers(a.saved, InjectedStop(t, a, p, q).ran, FdsOf(a), Answer(Collected(a, Signed(q.regs.rax), captured)))
  {
    var rax := Signed(q.regs.rax);
    EndResults(pid, a, t, rax, captured);
    FdsAreToldFirst(pid, a, t, rax, captured);
    hide OnScript;
    hide E.OnCourse;
    hide Answer;
    hide Collected;
    hide Remaining;
    RightAnswer(a.saved, Collected(a, rax, captured), InjectedStop(t, a, p, q).ran, FdsOf(a));
  }

  /** The results as the answer is worked out from them. */
  lemma EndResults(pid: Pid, a: Active, t: Taken, rax: I64, captured: Option<(I64, I64)>)
    requires a.Sequence? && !a.atEntry && OnScript(pid, a, t) && E.OnCourse(a, t)
    requires captured.Some? ==> PipeRuns(a)
    requires var done := Collected(a, rax, captured); Remaining(done.queue, done.results) == []
    ensures var done := Collected(a, rax, captured);
            && done.Sequence? && done.outcome == OutcomeFor(a.saved)
            && (a.saved.origRax != SYS_TIMERFD_CREATE ==> done.results == Rcs(t.ran) + [rax])
            && (a.saved.origRax != SYS_TIMERFD_CREATE && t.ran == [] ==> IsError(rax))
            && (t.ran != [] ==> !IsError(t.ran[0].rc))
  {
    if t.ran != [] {
      ErrorLeavesCleanup(pid, a, t);
    }
    ResultsAreRcs(pid, a, t, rax, captured);
    EndIsEnd(pid, a, t, rax, captured);
    FirstNeedsNoFds(pid, t.named, a.saved, FdsOf(a), FdsOf(a));
    hide E.OnCourse;
    hide Script;
    hide Plan;
    hide Remaining;
    hide Collected;
    var results := Collected(a, rax, captured).results;
    assert |results| == |t.ran| + 1 ==> results[..|t.ran| + 1] == results;
  }

  lemma RightAnswer(regs: Regs, done: Active, ran: seq<Ran>, fds: Fds)
    requires Scripted(regs) && done.Sequence? && done.outcome == OutcomeFor(regs) && ran != [] && Sane(ran)
    requires regs.origRax != SYS_TIMERFD_CREATE ==> done.results == Rcs(ran)
    requires regs.origRax != SYS_TIMERFD_CREATE && |ran| == 1 ==> IsError(ran[0].rc)
    requires |ran| > 1 ==> !IsError(ran[0].rc) && FdsOf(done) == fds
    ensures Answers(regs, ran, fds, Answer(done))
  {
    assert ran[0] in ran;
    if GivesFd(regs) {
      AnswerOfFirst(done);
    } else if regs.origRax != SYS_TIMERFD_CREATE {
      AnswerOfSecond(done);
    }
  }

  /** In every run: a call that is answered by others is one the kernel lacks; undisturbed, they are
      the calls of its script, in order, until one fails or they are all made; and the answer is
      that of the call it is for. */
  lemma EmulationsFollowScripts(c: Config, ss: seq<Sys>, evs: seq<Event>, i: nat)
    requires IsRun(c, ss, evs) && i < |evs| && c.mode == EverySyscall && R.EndsEmulation(ss[i], evs[i], ss[i + 1])
    requires ViewIn(ss[i], evs[i].pid).active.value.Sequence?
    requires SeenIn(ss[i], evs[i].pid).taken.Some? && !SeenIn(ss[i], evs[i].pid).taken.value.disturbed
    ensures SeenIn(ss[i + 1], evs[i].pid).taken.Some? && evs[i].pid in ss[i + 1].procs
    ensures var t, rax := SeenIn(ss[i + 1], evs[i].pid).taken.value, ss[i + 1].procs[evs[i].pid].regs.rax;
            var fds := FdsOf(ViewIn(ss[i], evs[i].pid).active.value);
            Scripted(t.entry.regs) && Lacked(c.env, t.entry.regs)
            && AsScripted(evs[i].pid, t, fds, Signed(rax))
  {
    hide RunsTo;
    hide AfterStop;
    hide SeenAfter;
    hide FillMatches;
    hide E.Inv;
    hide E.StoppedInTime;
    hide Collected;
    hide Answer;
    hide Captured;
    hide OnScript;
    hide Lacked;
    hide AsScripted;
    assert Happens(c, ss[i], evs[i], ss[i + 1]);
    R.InvOf(c, ss, evs, i, evs[i].pid);
    RunKeepsScripts(c, ss, evs, i);
    EndStopFollows(MomentOf(c, ss[i], evs[i]));
  }

  /** The calls made and the answer given are those of the script. */
  ghost predicate AsScripted(pid: Pid, t: Taken, fds: Fds, answer: I64) {
    && t.ran != [] && Follows(t.ran, Script(pid, t.named, t.entry.regs, fds))
    && (|t.ran| > 1 && GivesFd(t.entry.regs) ==> fds.fd == t.ran[0].rc)
    && (t.entry.regs.origRax == SYS_TIMERFD_CREATE ==> fds.fd == fds.readEnd)
    && (|t.ran| == |Script(pid, t.named, t.entry.regs, fds)| || IsError(t.ran[|t.ran| - 1].rc)
        || (|t.ran| == 1 && t.entry.regs.origRax == SYS_TIMERFD_CREATE))
    && (Sane(t.ran) ==> Answers(t.entry.regs, t.ran, fds, answer))
  }

  lemma EndIsScripted(pid: Pid, a: Active, t: Taken, p: Proc, q: Proc, captured: Option<(I64, I64)>)
    requires a.Sequence? && !a.atEntry && OnScript(pid, a, t) && E.OnCourse(a, t) && CallIn(q.regs) == RunningCall(a)
    requires captured.Some? ==> PipeRuns(a)
    requires Advance(a, q.regs, captured).active.None?
    ensures AsScripted(pid, InjectedStop(t, a, p, q), FdsOf(a), Answer(Collected(a, Signed(q.regs.rax), captured)))
  {
    var rax := Signed(q.regs.rax);
    RunningIsNext(pid, a, t);
    EndIsEnd(pid, a, t, rax, captured);
    ResultsAreRcs(pid, a, t, rax, captured);
    hide E.OnCourse;
    hide Collected;
    hide Answer;
    hide Script;
    hide Plan;
    hide Remaining;
    hide Answers;
    if Sane(InjectedStop(t, a, p, q).ran) {
      EndIsAnswered(pid, a, t, p, q, captured);
    }
  }

  lemma EndStopFollows(m: Moment)
    requires E.Stopped(m) && m.stop == SyscallStop && E.Inv(m.p, m.v, m.seen) && Inv(m.c.env, m.pid, m.v, m.seen.taken)
    requires m.v.active.Some? && m.v.active.value.Sequence? && m.seen.taken.Some? && !m.seen.taken.value.disturbed
    requires AfterStop(m).view.active.None?
    ensures SeenAfter(m).taken.Some?
    ensures var t, rax := SeenAfter(m).taken.value, AfterStop(m).proc.regs.rax;
            Scripted(t.entry.regs) && Lacked(m.c.env, t.entry.regs)
            && AsScripted(m.pid, t, FdsOf(m.v.active.value), Signed(rax))
  {
    var a, t := m.v.active.value, m.seen.taken.value;
    var captured, rax := PipeCapture(a, m.q.mem, m.out.reopened), Signed(m.q.regs.rax);
    OurCallReturns(m);
    SignedUnsigned(Answer(Collected(a, rax, captured)), 0);
    hide RunsTo;
    hide E.OnCourse;
    hide E.Undisturbed;
    hide E.StackKept;
    hide E.SignalsHeld;
    hide E.PhaseAgrees;
    hide Collected;
    hide Answer;
    hide Captured;
    hide CallIn;
    hide RunningCall;
    hide AsScripted;
    hide Script;
    hide Plan;
    hide Lacked;
    hide Remaining;
    EndIsScripted(m.pid, a, t, m.p, m.q, captured);
  }
}
