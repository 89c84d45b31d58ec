/** The flags that a new fd comes with when it is made by others of calls: what was asked for, and
    exactly when it is that. */
module NewFds {
  import opened Options
  import opened Words
  import opened PtraceKernel
  import opened Sequences
  import opened Takeover
  import opened Supervision
  import opened Protocol
  import opened EmulationScripts
  import R = Runs

  datatype FdFlags = FdFlags(nonblocking: bool, closedOnExec: bool)

  /** O_CLOEXEC, which EFD_CLOEXEC and TFD_CLOEXEC are too. */
  const CLOSE_ON_EXEC: nat := 0x80000

  /** What a fcntl on this fd makes of its flags. */
  function Fcntl(flags: FdFlags, call: Request6, fd: U64): FdFlags {
    if call.nr != SYS_FCNTL || call.a != fd then flags
    else if call.b == F_SETFL then flags.(nonblocking := Bit(call.c, O_NONBLOCK))
    else if call.b == F_SETFD then flags.(closedOnExec := call.c % 2 == FD_CLOEXEC)
    else flags
  }

  /** The flags of a new fd after these calls. */
  function FlagsAfter(calls: seq<Request6>, fd: U64): FdFlags {
    if calls == [] then FdFlags(false, false)
    else Fcntl(FlagsAfter(calls[..|calls| - 1], fd), calls[|calls| - 1], fd)
  }

  /** The flags that a call asks for. eventfd has none, whatever is in its second register. */
  function FlagsAsked(regs: Regs): FdFlags {
    if regs.origRax == SYS_FCNTL then FdFlags(false, true)
    else if regs.origRax == SYS_EVENTFD then FdFlags(false, false)
    else FdFlags(Bit(regs.rsi, O_NONBLOCK), Bit(regs.rsi, CLOSE_ON_EXEC))
  }

  predicate MakesFd(regs: Regs) { GivesFd(regs) || regs.origRax == SYS_TIMERFD_CREATE }

  function NewFd(regs: Regs, fds: Fds): U64 {
    Unsigned(if regs.origRax == SYS_TIMERFD_CREATE then fds.readEnd else fds.fd)
  }

  /** A call that was made by others with the flags it asked for. */
  predicate FlagsReach(regs: Regs) {
    if regs.origRax == SYS_FCNTL then true
    else if regs.origRax == SYS_EVENTFD then !Bit(regs.rsi, O_NONBLOCK)
    else !Bit(regs.rsi, CLOSE_ON_EXEC)
  }

  lemma OneMore(calls: seq<Request6>, call: Request6, fd: U64)
    ensures FlagsAfter(calls + [call], fd) == Fcntl(FlagsAfter(calls, fd), call, fd)
  {
    assert (calls + [call])[..|calls|] == calls;
  }

  lemma {:induction false} Untold(calls: seq<Request6>, fd: U64)
    requires forall call <- calls :: call.nr != SYS_FCNTL
    ensures FlagsAfter(calls, fd) == FdFlags(false, false)
  {
    if calls != [] {
      Untold(calls[..|calls| - 1], fd);
      assert calls[|calls| - 1] in calls;
    }
  }

  /** The calls before the ones that set flags. */
  function Making(pid: Pid, named: nat, regs: Regs, fds: Fds): seq<Request6>
    requires MakesFd(regs)
  {
    var n := if regs.origRax == SYS_FCNTL then 1 else if regs.origRax == SYS_TIMERFD_CREATE then 2 else 3;
    Script(pid, named, regs, fds)[..n]
  }

  lemma ScriptLeaves(pid: Pid, named: nat, regs: Regs, fds: Fds)
    requires MakesFd(regs)
    ensures FlagsAfter(Script(pid, named, regs, fds), NewFd(regs, fds))
            == if regs.origRax == SYS_FCNTL then FdFlags(false, true) else FdFlags(Bit(regs.rsi, O_NONBLOCK), false)
  {
    hide SocketAddress;
    hide Scratch;
    var script, fd := Script(pid, named, regs, fds), NewFd(regs, fds);
    if regs.origRax == SYS_FCNTL {
      assert script == [script[0], script[1]];
      DupLeaves(script[0], script[1], fd);
    } else {
      var making := Making(pid, named, regs, fds);
      Untold(making, fd);
      var n := |making|;
      assert script[..n] == making;
      assert Bit(regs.rsi, O_NONBLOCK) ==> script[..n + 1] == making + [script[n]];
      if Bit(regs.rsi, O_NONBLOCK) {
        OneMore(making, script[n], fd);
      }
      WriteLeaves(script, fd);
      hide FlagsAfter;
      assert script[..|script|] == script;
    }
  }

  lemma WriteLeaves(script: seq<Request6>, fd: U64)
    requires script != []
    ensures script[|script| - 1].nr == SYS_WRITE ==> FlagsAfter(script, fd) == FlagsAfter(script[..|script| - 1], fd)
  {
  }

  lemma DupLeaves(first: Request6, second: Request6, fd: U64)
    requires first.nr == SYS_FCNTL && first.b == F_DUPFD
    requires second.nr == SYS_FCNTL && second.a == fd && second.b == F_SETFD && second.c == FD_CLOEXEC
    ensures FlagsAfter([first, second], fd) == FdFlags(false, true)
  {
    OneMore([], first, fd);
    OneMore([first], second, fd);
    assert [] + [first] == [first] && [first] + [second] == [first, second];
  }

  /** A new fd has the flags that were asked for exactly when neither close-on-exec was, but for
      F_DUPFD_CLOEXEC, nor an eventfd has that bit by chance that would make it non-blocking. */
  lemma FlagsReachExactlyWhen(pid: Pid, named: nat, regs: Regs, fds: Fds)
    requires MakesFd(regs)
    ensures FlagsAfter(Script(pid, named, regs, fds), NewFd(regs, fds)) == FlagsAsked(regs) <==> FlagsReach(regs)
  {
    hide Script;
    hide FlagsAfter;
    ScriptLeaves(pid, named, regs, fds);
  }

  function Calls(ran: seq<Ran>): seq<Request6> { seq(|ran|, i requires 0 <= i < |ran| => ran[i].call) }

  /** All of the script was made, and the fd it made is the answer. */
  lemma AllWereMade(pid: Pid, t: Taken, fds: Fds, answer: I64)
    requires AsScripted(pid, t, fds, answer) && AllSucceeded(Rcs(t.ran)) && MakesFd(t.entry.regs)
    requires t.entry.regs.origRax == SYS_TIMERFD_CREATE ==> |t.ran| > 1 && fds.fd >= 0
    ensures Calls(t.ran) == Script(pid, t.named, t.entry.regs, fds) && Unsigned(answer) == NewFd(t.entry.regs, fds)
  {
    hide Script;
    forall r | r in t.ran ensures r.rc >= 0 {
      var k :| 0 <= k < |t.ran| && t.ran[k] == r;
      assert Rcs(t.ran)[k] in Rcs(t.ran);
    }
    assert t.ran[|t.ran| - 1] in t.ran;
    FirstNeedsNoFds(pid, t.named, t.entry.regs, fds, fds);
  }

  /** In every run: when all of its calls were made, and none failed, the fd that the application gets
      has the flags it asked for exactly in these cases. */
  lemma NewFdHasFlagsExactlyWhen(c: Config, ss: seq<Sys>, evs: seq<Event>, i: nat)
    requires IsRun(c, ss, evs) && i < |evs| && c.mode == EverySyscall && R.EndsEmulation(ss[i], evs[i], ss[i + 1])
    requires ViewIn(ss[i], evs[i].pid).active.value.Sequence?
    requires SeenIn(ss[i], evs[i].pid).taken.Some? && !SeenIn(ss[i], evs[i].pid).taken.value.disturbed
    ensures SeenIn(ss[i + 1], evs[i].pid).taken.Some? && evs[i].pid in ss[i + 1].procs
    ensures var t, rax := SeenIn(ss[i + 1], evs[i].pid).taken.value, ss[i + 1].procs[evs[i].pid].regs.rax;
            var regs, fds := t.entry.regs, FdsOf(ViewIn(ss[i], evs[i].pid).active.value);
            MakesFd(regs) && AllSucceeded(Rcs(t.ran))
            && (regs.origRax == SYS_TIMERFD_CREATE ==> |t.ran| > 1 && fds.fd >= 0) ==>
              (FlagsAfter(Calls(t.ran), rax) == FlagsAsked(regs) <==> FlagsReach(regs))
  {
    var pid, before, after := evs[i].pid, ss[i], ss[i + 1];
    hide IsRun;
    hide AsScripted;
    hide AllSucceeded;
    hide FlagsAsked;
    hide FlagsReach;
    hide FlagsAfter;
    hide MakesFd;
    hide Lacked;
    hide RunsTo;
    EmulationsFollowScripts(c, ss, evs, i);
    var t, rax := SeenIn(after, pid).taken.value, after.procs[pid].regs.rax;
    var fds := FdsOf(ViewIn(before, pid).active.value);
    if MakesFd(t.entry.regs) && AllSucceeded(Rcs(t.ran))
       && (t.entry.regs.origRax == SYS_TIMERFD_CREATE ==> |t.ran| > 1 && fds.fd >= 0) {
      AllWereMade(pid, t, fds, Signed(rax));
      FlagsReachExactlyWhen(pid, t.named, t.entry.regs, fds);
      SignedUnsigned(0, rax);
    }
  }
}
