/** What calls ask of the kernel, whatever their number, and exactly when a call that is rewritten at
    its entry still asks for the same. */
module CallMeanings {
  import opened Options
  import opened TraceeMemory
  import opened Words
  import opened PtraceKernel
  import opened Sequences
  import opened TimeMath
  import opened Takeover
  import opened Translations
  import opened Supervision
  import opened Protocol

  /** Clocks that tell the same time, at one resolution or another. */
  datatype Family = WallClock | SinceBoot | ThisOne(id: U64)

  function FamilyOf(id: U64): Family {
    if id in {CLOCK_REALTIME, CLOCK_REALTIME_COARSE} then WallClock
    else if id in {CLOCK_MONOTONIC, CLOCK_MONOTONIC_RAW, CLOCK_MONOTONIC_COARSE, CLOCK_BOOTTIME} then SinceBoot
    else ThisOne(id)
  }

  datatype Action = Get | Now | Drained | Flushed

  datatype Asked =
    | NewEpoll(flags: nat)
    | NewPipe(ends: U64, pipeFlags: nat)
    | Limit(resource: U64, setTo: Option<U64>, getInto: Option<U64>)
    | Terminal(fd: U64, action: Action, at: U64)
    | Clock(nr: U64, family: Family, b: U64, c: U64, d: U64)
    | StatusOfFd(statFd: U64)
    | StatusOfPath(dirFd: U64, path: U64, follow: bool)
    | Fault
    | Other(call: Request6)

  const AT_FDCWD: int := -100

  /** The low half of an argument, which is what a C int is passed in. */
  function Low(x: U64): nat { x % 0x1_0000_0000 }

  function Given(at: U64): Option<U64> { if at == 0 then None else Some(at) }

  /** The status of an open file; of a directory to start from there is none. */
  function StatusOf(fd: U64): Asked { if AsI32(fd) == AT_FDCWD then Fault else StatusOfFd(fd) }

  predicate EmptyPath(mem: Memory, path: U64) { path in mem && mem[path] == 0 }

  /** Of a statx the buffer and the mask are left aside, and of the flags those that say how a
      network file is looked at. */
  function StatxMeaning(c: Request6, mem: Memory): Asked {
    if !Bit(c.c, AT_EMPTY_PATH) || !EmptyPath(mem, c.b) then StatusOfPath(c.a, c.b, !Bit(c.c, AT_SYMLINK_NOFOLLOW))
    else if AsI32(c.a) == AT_FDCWD then StatusOfPath(c.a, c.b, !Bit(c.c, AT_SYMLINK_NOFOLLOW))
    else StatusOfFd(c.a)
  }

  function TerminalMeaning(c: Request6): Asked {
    if c.b in {TCGETS, TCGETS2} then Terminal(c.a, Get, c.c)
    else if c.b in {TCSETS, TCSETS2} then Terminal(c.a, Now, c.c)
    else if c.b in {TCSETSW, TCSETSW2} then Terminal(c.a, Drained, c.c)
    else if c.b in {TCSETSF, TCSETSF2} then Terminal(c.a, Flushed, c.c)
    else Other(c)
  }

  /** What a call asks for, as its manual page has it. */
  function Meaning(c: Request6, mem: Memory): Asked {
    if c.nr == SYS_EPOLL_CREATE then if 0 < AsI32(c.a) then NewEpoll(0) else Fault
    else if c.nr == SYS_EPOLL_CREATE1 then NewEpoll(Low(c.a))
    else if c.nr == SYS_PIPE then NewPipe(c.a, 0)
    else if c.nr == SYS_PIPE2 then NewPipe(c.a, Low(c.b))
    else if c.nr == SYS_GETRLIMIT then if c.b == 0 then Fault else Limit(c.a, None, Some(c.b))
    else if c.nr == SYS_SETRLIMIT then if c.b == 0 then Fault else Limit(c.a, Some(c.b), None)
    else if c.nr == SYS_PRLIMIT64 && c.a == 0 then Limit(c.b, Given(c.c), Given(c.d))
    else if c.nr == SYS_IOCTL then TerminalMeaning(c)
    else if c.nr in {SYS_CLOCK_GETTIME, SYS_CLOCK_GETRES, SYS_CLOCK_NANOSLEEP} then
      Clock(c.nr, FamilyOf(c.a), c.b, c.c, c.d)
    else if c.nr == SYS_FSTAT then StatusOf(c.a)
    else if c.nr == SYS_NEWFSTATAT then StatusOfPath(c.a, c.b, !Bit(c.d, AT_SYMLINK_NOFOLLOW))
    else if c.nr == SYS_STATX then StatxMeaning(c, mem)
    else Other(c)
  }

  /** The calls that may be rewritten and whose meaning is in their arguments alone. A futex and a
      ppoll are also about time. */
  predicate Timeless(regs: Regs) { regs.origRax !in {SYS_FUTEX, SYS_PPOLL} }

  /** What the caller can see of its own call: that nothing which the old call cannot say is said. */
  predicate Sayable(env: Env, regs: Regs, mem: Memory) {
    && (regs.origRax == SYS_EPOLL_CREATE1 && env.epollCreate1Missing ==> Low(regs.rdi) == 0)
    && (regs.origRax == SYS_PIPE2 && env.pipe2Missing ==> Low(regs.rsi) == 0)
    && (regs.origRax == SYS_PRLIMIT64 && env.prlimit64Missing && regs.rdi == 0 ==> (regs.rdx == 0) != (regs.r10 == 0))
    && (regs.origRax == SYS_STATX && env.statxMissing && regs.r8 != 0 && Bit(regs.rdx, AT_EMPTY_PATH) ==>
          EmptyPath(mem, regs.rsi) && AsI32(regs.rdi) != AT_FDCWD)
  }

  /** A 64-bit call as it goes on from its entry. */
  function Rewritten(env: Env, v: View, p: Proc, out: Outside): Request6 {
    CallIn(OnEntry(env, v, p, out).1.regs)
  }

  /** A call that is rewritten at its entry asks for the same exactly when what it asks for can be
      said by the old call. */
  lemma MeaningKeptExactlyWhen(env: Env, v: View, p: Proc, out: Outside)
    requires p.regs.cs == CS_64 && Timeless(p.regs)
    ensures Meaning(Rewritten(env, v, p, out), p.mem) == Meaning(CallIn(p.regs), p.mem) <==> Sayable(env, p.regs, p.mem)
  {
    hide Futex;
    hide PpollTimeout;
  }

  /** The same in the filtering mode, where fewer calls are rewritten. */
  lemma FilterKeepsMeaningExactlyWhen(c: Config, v: View, p: Proc, out: Outside)
    requires p.regs.cs == CS_64 && p.regs.origRax in {SYS_PIPE2, SYS_STATX}
    ensures Meaning(CallIn(AtFilter(c, v, p, out).1.regs), p.mem) == Meaning(CallIn(p.regs), p.mem)
            <==> Sayable(c.env, p.regs, p.mem)
  {
  }

  /** The kernel does not have this call, or not in this form. */
  predicate Lacks(env: Env, c: Request6) {
    || (c.nr == SYS_EPOLL_CREATE1 && env.epollCreate1Missing) || (c.nr == SYS_PIPE2 && env.pipe2Missing)
    || (c.nr == SYS_STATX && env.statxMissing) || (c.nr == SYS_PPOLL && env.ppollMissing)
    || (c.nr == SYS_PRLIMIT64 && env.prlimit64Missing)
    || (c.nr == SYS_FUTEX && env.before2_6_29 && !IsPlainOp(Low(c.b)))
    || (c.nr == SYS_IOCTL && env.before2_6_20 && c.b in {TCGETS2, TCSETS2, TCSETSW2, TCSETSF2})
    || (c.nr in {SYS_CLOCK_GETTIME, SYS_CLOCK_GETRES, SYS_CLOCK_NANOSLEEP} && c.a !in env.answeredClocks)
  }

  /** The first clock of a family. */
  function OldClock(id: U64): U64 {
    match FamilyOf(id)
    case WallClock => CLOCK_REALTIME
    case SinceBoot => CLOCK_MONOTONIC
    case ThisOne(id) => id
  }

  /** What the kernel lacks goes on to it exactly in these cases: limits of another process, a statx
      without a buffer, a futex whose point in time cannot be converted, and a clock of a family of
      which it answers not even the first. */
  lemma LackedGoesOnExactlyWhen(env: Env, v: View, p: Proc, out: Outside)
    requires p.regs.cs == CS_64
    ensures var regs, op := p.regs, Low(p.regs.rsi);
            Lacks(env, Rewritten(env, v, p, out))
            <==> || (regs.origRax == SYS_PRLIMIT64 && env.prlimit64Missing && regs.rdi != 0)
                 || (regs.origRax == SYS_STATX && env.statxMissing && regs.r8 == 0)
                 || (regs.origRax == SYS_FUTEX && env.before2_6_29 && !IsPlainOp(op)
                     && EndsAt(op) && regs.r10 != 0 && !Converts(op, regs, p.mem, out))
                 || (regs.origRax in {SYS_CLOCK_GETTIME, SYS_CLOCK_GETRES, SYS_CLOCK_NANOSLEEP}
                     && regs.rdi !in env.answeredClocks && OldClock(regs.rdi) !in env.answeredClocks)
  {
    hide Futex;
    hide Statx;
    hide Converts;
    hide EndsAt;
    hide PpollTimeout;
    hide Wrapped;
    if p.regs.origRax == SYS_FUTEX {
      FutexLacked(env, v, p, out);
    } else {
      StatxKeepsNumber(p.regs, p.mem);
    }
  }

  /** What the kernel has goes on as it is, with memory as it is. */
  lemma KnownGoesOn(env: Env, v: View, p: Proc, out: Outside)
    requires p.regs.cs == CS_64 && !Lacks(env, CallIn(p.regs))
    ensures OnEntry(env, v, p, out).1 == p
  {
    hide Futex;
    hide PpollTimeout;
    if p.regs.origRax == SYS_FUTEX {
      FutexGetsPlainOp(env, p.regs, p.mem, out);
    }
  }

  lemma FutexLacked(env: Env, v: View, p: Proc, out: Outside)
    requires p.regs.cs == CS_64 && p.regs.origRax == SYS_FUTEX
    ensures var c, op := Rewritten(env, v, p, out), Low(p.regs.rsi);
            && c.nr == SYS_FUTEX
            && (env.before2_6_29 && !IsPlainOp(Low(c.b))
                <==> env.before2_6_29 && !IsPlainOp(op) && EndsAt(op) && p.regs.r10 != 0
                     && !Converts(op, p.regs, p.mem, out))
  {
    FutexGetsPlainOp(env, p.regs, p.mem, out);
    FutexKeepsKind(env, v, p, out);
    hide Futex;
    hide KindOf;
    hide Converts;
    hide EndsAt;
  }

  lemma StatxKeepsNumber(regs: Regs, mem: Memory)
    ensures Statx(regs, mem).handled == Some(true)
    ensures Statx(regs, mem).regs.origRax in {regs.origRax, SYS_FSTAT, SYS_NEWFSTATAT}
    ensures Statx(regs, mem).regs.origRax == regs.origRax <==>
            regs.r8 == 0 || regs.origRax == if Bit(regs.rdx, AT_EMPTY_PATH) then SYS_FSTAT else SYS_NEWFSTATAT
  {
  }

  /** A ppoll becomes a poll of the same fds, that waits for as many whole milliseconds as were asked
      for, or for ever when no end was given; and also when the end cannot be read, where a ppoll
      would fail. */
  lemma PpollAsksPoll(env: Env, v: View, p: Proc, out: Outside)
    requires p.regs.cs == CS_64 && p.regs.origRax == SYS_PPOLL && env.ppollMissing
    ensures var c, until := Rewritten(env, v, p, out), ReadSpec(p.mem, p.regs.rdx, 16);
            var ms := AsI32(c.c);
            && c.nr == SYS_POLL && c.a == p.regs.rdi && c.b == p.regs.rsi
            && (p.regs.rdx == 0 || until.None? ==> ms == -1)
            && (p.regs.rdx != 0 && until.Some? && Valid(ReadTime(until.value, 0)) ==>
                  && 0 <= ms && ms * 1_000_000 <= Nanos(ReadTime(until.value, 0))
                  && (ms < I32_MAX ==> Nanos(ReadTime(until.value, 0)) < (ms + 1) * 1_000_000))
            && (p.regs.rdx != 0 && until.Some? && Nanos(ReadTime(until.value, 0)) <= -1_000_000 ==> ms == -1)
  {
    var until := ReadSpec(p.mem, p.regs.rdx, 16);
    if until.Some? {
      MillisecondsRoundDown(ReadTime(until.value, 0));
    }
    var ms := PpollTimeout(p.regs.rdx, p.mem);
    assert -1 <= ms <= I32_MAX;
    WrappedIsLow(ms);
    hide Milliseconds;
    hide ReadTime;
    hide ReadSpec;
    hide Wrapped;
    hide AsI32;
  }

  lemma WrappedIsLow(x: int)
    requires -1 <= x <= I32_MAX
    ensures AsI32(Wrapped(x)) == x
  {
  }

  datatype FutexKind = Waits | Wakes | Does(command: nat)

  function KindOf(op: nat): FutexKind {
    var command := op % 128;
    if command in {FUTEX_WAIT, FUTEX_WAIT_BITSET} then Waits
    else if command in {FUTEX_WAKE, FUTEX_WAKE_BITSET} then Wakes
    else Does(command)
  }

  /** A futex call stays one of its kind, on the same word, with the same value. */
  lemma FutexKeepsKind(env: Env, v: View, p: Proc, out: Outside)
    requires p.regs.cs == CS_64 && p.regs.origRax == SYS_FUTEX
    ensures var c := Rewritten(env, v, p, out);
            && c.nr == SYS_FUTEX && KindOf(Low(c.b)) == KindOf(Low(p.regs.rsi))
            && c.a == p.regs.rdi && c.c == p.regs.rdx && c.e == p.regs.r8 && c.f == p.regs.r9
  {
    hide RelativeTimeout;
    CommandKept(Low(p.regs.rsi));
  }

  lemma CommandKept(op: nat)
    requires op < 0x1_0000_0000
    ensures KindOf(BareCommand(op)) == KindOf(op) && BareCommand(op) % 0x1_0000_0000 == BareCommand(op)
  {
  }
}
