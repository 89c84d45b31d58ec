/** Which calls are taken over, exactly, and what is in memory then. */
module TakenCalls {
  import opened Options
  import opened TraceeMemory
  import opened Words
  import opened PtraceKernel
  import opened Sequences
  import opened TimeMath
  import opened Takeover
  import opened Supervision
  import opened StopShapes
  import opened Protocol
  import opened EmulationScripts
  import TimerFd

  /** The instruction behind the tracee enters the kernel. */
  predicate CanEnterAgain(regs: Regs, mem: Memory) {
    var at := WrappingSub(regs.rip, 2);
    Mapped(mem, at, 8) && Bytes(mem, at, 2) in {[0x0f, 0x05], [0xcd, 0x80]}
  }

  /** Below the stack there is room for an eventfd's address, and for its initial value if it has one. */
  predicate HasRoom(pid: Pid, n: nat, regs: Regs, mem: Memory) {
    && WordsMapped(mem, Scratch(regs.rsp), |SocketAddress(pid, n)|)
    && (regs.rdi != 0 ==> WordsMapped(mem, (Scratch(regs.rsp) + 256) % TWO64, 8))
  }

  lemma GadgetExactlyWhen(regs: Regs, mem: Memory)
    ensures GadgetFor(mem, regs).Some? <==> CanEnterAgain(regs, mem)
  {
    var at := WrappingSub(regs.rip, 2);
    if Mapped(mem, at, 8) {
      var bytes := Bytes(mem, at, 2);
      assert bytes == [bytes[0], bytes[1]];
    }
  }

  lemma RoomExactlyWhen(pid: Pid, n: nat, regs: Regs, mem: Memory)
    ensures EventfdBuffers(pid, n, regs, mem).0 <==> HasRoom(pid, n, regs, mem)
  {
    var scratch, address := Scratch(regs.rsp), SocketAddress(pid, n);
    StillMapped(mem, scratch, address, (scratch + 256) % TWO64, 8);
    hide SocketAddress;
    hide Scratch;
    hide ToBytes;
    hide Mapped;
    hide Overwrite;
  }

  /** Writing maps nothing, and unmaps nothing. */
  lemma StillMapped(mem: Memory, at: Address, bytes: seq<Byte>, other: Address, length: nat)
    ensures WordsMapped(Overwrite(mem, at, bytes), other, length) <==> WordsMapped(mem, other, length)
  {
    forall a ensures a in Overwrite(mem, at, bytes) <==> a in mem {
    }
  }

  /** A 64-bit call is answered by others exactly when the kernel lacks it, there is an instruction to
      make them from, and an eventfd's address and value can be put in memory. */
  lemma TakenExactlyWhen(env: Env, pid: Pid, n: nat, regs: Regs, mem: Memory, out: Outside)
    requires regs.cs == CS_64
    ensures var active := Begin(env, pid, n, regs, mem, true, out).active;
            (active.Some? && active.value.Sequence?)
            <==> Lacked(env, regs) && CanEnterAgain(regs, mem)
                 && (regs.origRax in {SYS_EVENTFD, SYS_EVENTFD2} ==> HasRoom(pid, n, regs, mem))
  {
    GadgetExactlyWhen(regs, mem);
    RoomExactlyWhen(pid, n, regs, mem);
    hide GadgetFor;
    hide CanEnterAgain;
    hide HasRoom;
    hide EventfdBuffers;
    hide ReadSpec;
    hide OldReported;
    hide CanSet;
    hide CurrentSetting;
    hide ReplacedClock;
    hide Scratch;
  }

  /** A setting that can be read at rdx and carried out, the one before it reported where that is asked
      for. */
  predicate CanBeSet(regs: Regs, mem: Memory, t: TimerFd.Timer, clock: TimerFd.Clock) {
    && ReadSpec(mem, regs.rdx, 32).Some? && (regs.r10 != 0 ==> WordsMapped(mem, regs.r10, 32))
    && (ReadTime(ReadSpec(mem, regs.rdx, 32).value, 16) == ZERO || regs.rsi % 2 == 1 || t.clockid in clock.known)
  }

  lemma SettingIs32Bytes(t: TimerFd.Timer, now: Time)
    ensures |CurrentSetting(t, now)| == 32
  {
    hide TimeLeft;
    hide ToBytes;
  }

  /** A 64-bit timer call is answered by the tracer itself, with 0, exactly when it is about a timer of
      its own and can be carried out; no call is answered otherwise. */
  lemma AnsweredExactlyWhen(env: Env, pid: Pid, n: nat, regs: Regs, mem: Memory, out: Outside)
    requires regs.cs == CS_64
    ensures var active := Begin(env, pid, n, regs, mem, true, out).active;
            (active.Some? && active.value.Fixup?)
            <==> out.timer.Some?
                 && if regs.origRax == SYS_TIMERFD_SETTIME then CanBeSet(regs, mem, out.timer.value, out.clock)
                    else regs.origRax == SYS_TIMERFD_GETTIME && WordsMapped(mem, regs.rsi, 32)
    ensures var active := Begin(env, pid, n, regs, mem, true, out).active;
            active.Some? && active.value.Fixup? ==> active.value.result == 0
  {
    if out.timer.Some? {
      SettingIs32Bytes(out.timer.value, Reading(out.timer.value, out.clock));
    }
    hide GadgetFor;
    hide EventfdBuffers;
    hide ReadSpec;
    hide ReadTime;
    hide CurrentSetting;
    hide Reading;
    hide ReplacedClock;
    hide Scratch;
    hide SocketAddress;
  }

  /** A syscall stop at which this tracee enters a 64-bit call of the application's. */
  ghost predicate EntersCall(c: Config, s: Sys, ev: Event) {
    && c.mode == EverySyscall && ev.Stops? && ev.stop == SyscallStop && ev.q.regs.cs == CS_64
    && ViewIn(s, ev.pid).active.None? && !ViewIn(s, ev.pid).inSyscall
  }

  lemma EntryBegins(m: Moment)
    requires m.c.mode == EverySyscall && m.stop == SyscallStop && m.v.active.None? && !m.v.inSyscall
    ensures var b := Begin(m.c.env, m.pid, m.n, m.q.regs, m.q.mem, true, m.out);
            && AfterStop(m).view.active == b.active && AfterStop(m).sequence == b.sequence
            && (b.active.Some? ==>
                  && AfterStop(m).proc.mem == b.mem
                  && SeenAfter(m).taken.Some? && SeenAfter(m).taken.value.named == b.sequence
                  && SeenAfter(m).taken.value.entry == m.q)
  {
    hide Begin;
    var b := Begin(m.c.env, m.pid, m.n, m.q.regs, m.q.mem, true, m.out);
    OwnStopStartsNothing(m.c.env, m.v, m.q.(regs := b.regs, mem := b.mem), m.out, m.filled);
    hide OnEntry;
  }

  /** In every run: an application's call is answered by others or by the tracer exactly when the kernel
      lacks it, or a timer of the tracer's is meant, and it can be done. */
  lemma TakenOverExactlyWhen(c: Config, ss: seq<Sys>, evs: seq<Event>, i: nat)
    requires IsRun(c, ss, evs) && i < |evs| && EntersCall(c, ss[i], evs[i])
    ensures var pid, n, q, out := evs[i].pid, ss[i].sequence, evs[i].q, evs[i].out;
            var active := ViewIn(ss[i + 1], pid).active;
            && (active.Some? && active.value.Sequence?
                <==> Lacked(c.env, q.regs) && CanEnterAgain(q.regs, q.mem)
                     && (q.regs.origRax in {SYS_EVENTFD, SYS_EVENTFD2} ==> HasRoom(pid, n, q.regs, q.mem)))
            && (active.Some? && active.value.Fixup?
                <==> out.timer.Some?
                     && if q.regs.origRax == SYS_TIMERFD_SETTIME
                        then CanBeSet(q.regs, q.mem, out.timer.value, out.clock)
                        else q.regs.origRax == SYS_TIMERFD_GETTIME && WordsMapped(q.mem, q.regs.rsi, 32))
  {
    hide RunsTo;
    hide AfterStop;
    hide SeenAfter;
    hide FillMatches;
    hide CanEnterAgain;
    hide HasRoom;
    hide CanBeSet;
    hide Lacked;
    assert Happens(c, ss[i], evs[i], ss[i + 1]);
    EntryBegins(MomentOf(c, ss[i], evs[i]));
    TakenExactlyWhen(c.env, evs[i].pid, ss[i].sequence, evs[i].q.regs, evs[i].q.mem, evs[i].out);
    AnsweredExactlyWhen(c.env, evs[i].pid, ss[i].sequence, evs[i].q.regs, evs[i].q.mem, evs[i].out);
  }

  /** At this stop an eventfd is taken over. */
  ghost predicate TakesEventfd(c: Config, ss: seq<Sys>, evs: seq<Event>, i: nat)
    requires |ss| == |evs| + 1 && i < |evs|
  {
    && EntersCall(c, ss[i], evs[i]) && evs[i].q.regs.origRax in {SYS_EVENTFD, SYS_EVENTFD2}
    && ViewIn(ss[i + 1], evs[i].pid).active.Some?
  }

  lemma StepCounts(c: Config, s: Sys, ev: Event, s': Sys)
    requires Happens(c, s, ev, s')
    ensures s.sequence <= s'.sequence
  {
    hide RunsTo;
    hide FillMatches;
    hide SeenAfter;
    if ev.Stops? {
      StopCounts(MomentOf(c, s, ev));
    }
    hide AfterStop;
  }

  lemma StopCounts(m: Moment)
    ensures m.n <= AfterStop(m).sequence
  {
    BeginCounts(m.c.env, m.pid, m.n, m.q.regs, m.q.mem, !m.v.inSyscall, m.out);
    hide Begin;
    hide OnSyscallStop;
    hide OnFilteredSyscall;
    hide OnSeccomp;
    hide OnSignal;
  }

  lemma BeginCounts(env: Env, pid: Pid, n: nat, regs: Regs, mem: Memory, entering: bool, out: Outside)
    ensures n <= Begin(env, pid, n, regs, mem, entering, out).sequence <= n + 1
    ensures var b := Begin(env, pid, n, regs, mem, entering, out);
            b.active.Some? && regs.origRax in {SYS_EVENTFD, SYS_EVENTFD2} ==>
              b.sequence == n + 1 && b.mem == EventfdBuffers(pid, n, regs, mem).1 && EventfdBuffers(pid, n, regs, mem).0
  {
    hide GadgetFor;
    hide EventfdBuffers;
    hide ReadSpec;
    hide OldReported;
    hide CanSet;
    hide CurrentSetting;
    hide ReplacedClock;
    hide Scratch;
    hide SocketAddress;
  }

  /** The count of eventfds never falls. */
  lemma {:induction false} CountGrows(c: Config, ss: seq<Sys>, evs: seq<Event>, i: nat, j: nat)
    requires IsRun(c, ss, evs) && i <= j < |ss|
    ensures ss[i].sequence <= ss[j].sequence
    decreases j
  {
    hide Happens;
    if i < j {
      CountGrows(c, ss, evs, i, j - 1);
      StepCounts(c, ss[j - 1], evs[j - 1], ss[j]);
    }
  }

  /** Powers of ten, and the digits that numbers below them have. */
  function Power10(k: nat): nat { if k == 0 then 1 else 10 * Power10(k - 1) }

  lemma {:induction false} DigitsOf(n: nat, k: nat)
    requires k > 0 && n < Power10(k)
    ensures |Decimal(n)| <= k
  {
    if n >= 10 {
      DigitsOf(n / 10, k - 1);
    }
  }

  /** An address that a `struct sockaddr_un` has room for, in the abstract name space. */
  predicate IsAbstract(b: seq<Byte>) { 3 < |b| <= 110 && FromBytes(b[0..2]) == AF_UNIX && b[2] == 0 }

  lemma AddressIsAbstract(pid: Pid, n: nat)
    requires pid < Power10(10) && n < Power10(20)
    ensures IsAbstract(SocketAddress(pid, n))
  {
    DigitsOf(pid, 10);
    DigitsOf(n, 20);
    hide Decimal;
    var b := SocketAddress(pid, n);
    assert b[0..2] == [1, 0] && b[0..2][1..] == [0] && [0][1..] == [];
    assert FromBytes([0]) == 0;
  }

  /** In memory, at the address that its calls are made with, an eventfd has an abstract address, and
      where its first value is written from that value. */
  ghost predicate ReadyFor(pid: Pid, named: nat, regs: Regs, mem: Memory, fds: Fds) {
    var script := Script(pid, named, regs, fds);
    && |script| >= 3 && script[1].nr == SYS_BIND && script[2] == script[1].(nr := SYS_CONNECT)
    && ReadSpec(mem, script[1].b, script[1].c).Some?
    && IsAbstract(ReadSpec(mem, script[1].b, script[1].c).value)
    && (regs.rdi != 0 ==>
          && var last := script[|script| - 1];
          && last.nr == SYS_WRITE && last.a == script[1].a && last.c == 8
          && ReadSpec(mem, last.b, 8) == Some(ToBytes(regs.rdi, 8)))
  }

  ghost predicate EventfdReady(pid: Pid, named: nat, regs: Regs, mem: Memory) {
    forall fds :: ReadyFor(pid, named, regs, mem, fds)
  }

  lemma EventfdScript(pid: Pid, n: nat, regs: Regs, fds: Fds)
    requires regs.origRax in {SYS_EVENTFD, SYS_EVENTFD2} && |SocketAddress(pid, n)| <= 110
    ensures var script, scratch, fd := Script(pid, n + 1, regs, fds), Scratch(regs.rsp), Unsigned(fds.fd);
            && |script| >= 3
            && script[1] == Request6(SYS_BIND, fd, scratch, |SocketAddress(pid, n)|, 0, 0, 0)
            && script[2] == Request6(SYS_CONNECT, fd, scratch, |SocketAddress(pid, n)|, 0, 0, 0)
            && (regs.rdi != 0 ==>
                  script[|script| - 1] == Request6(SYS_WRITE, fd, (scratch + 256) % TWO64, 8, 0, 0, 0))
  {
    hide SocketAddress;
    hide Scratch;
  }

  /** The address and the value are in memory. */
  ghost predicate BuffersHold(pid: Pid, n: nat, regs: Regs, after: Memory) {
    && ReadSpec(after, Scratch(regs.rsp), |SocketAddress(pid, n)|) == Some(SocketAddress(pid, n))
    && (regs.rdi != 0 ==> ReadSpec(after, (Scratch(regs.rsp) + 256) % TWO64, 8) == Some(ToBytes(regs.rdi, 8)))
  }

  lemma ReadyWith(pid: Pid, n: nat, regs: Regs, after: Memory, fds: Fds)
    requires regs.origRax in {SYS_EVENTFD, SYS_EVENTFD2} && IsAbstract(SocketAddress(pid, n))
    requires BuffersHold(pid, n, regs, after)
    ensures ReadyFor(pid, n + 1, regs, after, fds)
  {
    hide SocketAddress;
    hide ReadSpec;
    hide ToBytes;
    hide Scratch;
    hide Script;
    EventfdScript(pid, n, regs, fds);
  }

  lemma BuffersAreWritten(pid: Pid, n: nat, regs: Regs, mem: Memory)
    requires EventfdBuffers(pid, n, regs, mem).0 && IsAbstract(SocketAddress(pid, n))
    requires Scratch(regs.rsp) + 256 < TWO64
    ensures BuffersHold(pid, n, regs, EventfdBuffers(pid, n, regs, mem).1)
  {
    EventfdIsSelfConnected(pid, n, regs, mem, 0);
    hide SocketAddress;
    hide EventfdBuffers;
    hide EventfdQueue;
    hide Build;
    hide ReadSpec;
    hide ToBytes;
    hide Scratch;
  }

  lemma BuffersAreReady(pid: Pid, n: nat, regs: Regs, mem: Memory)
    requires regs.origRax in {SYS_EVENTFD, SYS_EVENTFD2} && EventfdBuffers(pid, n, regs, mem).0
    requires pid < Power10(10) && n < Power10(20) && Scratch(regs.rsp) + 256 < TWO64
    ensures EventfdReady(pid, n + 1, regs, EventfdBuffers(pid, n, regs, mem).1)
    ensures BuffersHold(pid, n, regs, EventfdBuffers(pid, n, regs, mem).1)
  {
    var after, named := EventfdBuffers(pid, n, regs, mem).1, n + 1;
    AddressIsAbstract(pid, n);
    BuffersAreWritten(pid, n, regs, mem);
    hide BuffersHold;
    hide SocketAddress;
    hide EventfdBuffers;
    hide Power10;
    hide ReadyFor;
    hide IsAbstract;
    forall fds: Fds ensures ReadyFor(pid, named, regs, after, fds) {
      ReadyWith(pid, n, regs, after, fds);
    }
  }

  /** In every run an eventfd that is taken over is ready for its calls. */
  lemma EventfdsAreReady(c: Config, ss: seq<Sys>, evs: seq<Event>, i: nat)
    requires IsRun(c, ss, evs) && i < |evs| && TakesEventfd(c, ss, evs, i)
    requires evs[i].pid < Power10(10) && ss[i].sequence < Power10(20) && Scratch(evs[i].q.regs.rsp) + 256 < TWO64
    ensures evs[i].pid in ss[i + 1].procs && SeenIn(ss[i + 1], evs[i].pid).taken.Some?
    ensures var t, mem := SeenIn(ss[i + 1], evs[i].pid).taken.value, ss[i + 1].procs[evs[i].pid].mem;
            var regs := evs[i].q.regs;
            && EventfdReady(evs[i].pid, t.named, regs, mem)
            && t.named == ss[i + 1].sequence == ss[i].sequence + 1
            && BuffersHold(evs[i].pid, ss[i].sequence, regs, mem)
  {
    hide RunsTo;
    hide AfterStop;
    hide SeenAfter;
    hide FillMatches;
    hide Power10;
    hide Scratch;
    hide EventfdReady;
    hide SocketAddress;
    hide EventfdBuffers;
    hide Begin;
    assert Happens(c, ss[i], evs[i], ss[i + 1]);
    var pid, n, q := evs[i].pid, ss[i].sequence, evs[i].q;
    EntryBegins(MomentOf(c, ss[i], evs[i]));
    BeginCounts(c.env, pid, n, q.regs, q.mem, true, evs[i].out);
    BuffersAreReady(pid, n, q.regs, q.mem);
  }

  /** The address in memory of an eventfd that is taken over. */
  ghost predicate HasAddress(ss: seq<Sys>, evs: seq<Event>, i: nat, b: seq<Byte>)
    requires |ss| == |evs| + 1 && i < |evs|
  {
    && evs[i].Stops? && evs[i].pid in ss[i + 1].procs && SeenIn(ss[i + 1], evs[i].pid).taken.Some?
    && var t := SeenIn(ss[i + 1], evs[i].pid).taken.value;
    && var bind := Script(evs[i].pid, t.named, evs[i].q.regs, Fds(-1, -1, -1));
    && |bind| >= 3 && ReadSpec(ss[i + 1].procs[evs[i].pid].mem, bind[1].b, bind[1].c) == Some(b)
  }

  lemma AddressIs(c: Config, ss: seq<Sys>, evs: seq<Event>, i: nat, b: seq<Byte>)
    requires IsRun(c, ss, evs) && i < |evs| && TakesEventfd(c, ss, evs, i)
    requires evs[i].pid < Power10(10) && ss[i].sequence < Power10(20) && Scratch(evs[i].q.regs.rsp) + 256 < TWO64
    requires HasAddress(ss, evs, i, b)
    ensures b == SocketAddress(evs[i].pid, ss[i].sequence) && ss[i + 1].sequence == ss[i].sequence + 1
  {
    hide RunsTo;
    hide AfterStop;
    hide SeenAfter;
    hide Power10;
    hide Scratch;
    hide SocketAddress;
    hide Happens;
    hide ReadSpec;
    EventfdsAreReady(c, ss, evs, i);
    hide EventfdReady;
    AddressIsAbstract(evs[i].pid, ss[i].sequence);
    hide IsAbstract;
    EventfdScript(evs[i].pid, ss[i].sequence, evs[i].q.regs, Fds(-1, -1, -1));
  }

  /** In every run no two eventfds have one address, whoever makes them, and whatever becomes of pids. */
  lemma AddressesAreApart(c: Config, ss: seq<Sys>, evs: seq<Event>, i: nat, j: nat, a: seq<Byte>, b: seq<Byte>)
    requires IsRun(c, ss, evs) && i < j < |evs| && TakesEventfd(c, ss, evs, i) && TakesEventfd(c, ss, evs, j)
    requires evs[i].pid < Power10(10) && evs[j].pid < Power10(10) && ss[j].sequence < Power10(20)
    requires Scratch(evs[i].q.regs.rsp) + 256 < TWO64 && Scratch(evs[j].q.regs.rsp) + 256 < TWO64
    requires HasAddress(ss, evs, i, a) && HasAddress(ss, evs, j, b)
    ensures a != b
  {
    CountGrows(c, ss, evs, i, j);
    CountGrows(c, ss, evs, i + 1, j);
    hide IsRun;
    hide TakesEventfd;
    hide HasAddress;
    hide AddressName;
    AddressIs(c, ss, evs, i, a);
    AddressIs(c, ss, evs, j, b);
    if a == b {
      assert a[3..] == AddressName(evs[i].pid, ss[i].sequence) && b[3..] == AddressName(evs[j].pid, ss[j].sequence);
      NamesApart(evs[i].pid, ss[i].sequence, evs[j].pid, ss[j].sequence);
    }
  }
}
