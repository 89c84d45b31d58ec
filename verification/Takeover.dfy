/** Taking over a call at its entry stop: which calls are emulated, and by which sequence. */
module Takeover {
  import opened Options
  import opened TraceeMemory
  import opened Words
  import opened PtraceKernel
  import opened Sequences
  import opened TimeMath
  import TimerFd

  const SYS_EPOLL_PWAIT: U64 := 281
  const SYS_TIMERFD_CREATE: U64 := 283
  const SYS_EVENTFD: U64 := 284
  const SYS_TIMERFD_SETTIME: U64 := 286
  const SYS_TIMERFD_GETTIME: U64 := 287
  const SYS_EVENTFD2: U64 := 290
  const SYS_PREADV: U64 := 295
  const SYS_PWRITEV: U64 := 296

  const F_DUPFD_CLOEXEC: U64 := 1030
  const EFD_NONBLOCK: nat := 0x800
  const TFD_NONBLOCK: nat := 0x800

  /** What the probes and version checks answered, once, for this kernel. */
  datatype Env = Env(before2_6_19: bool, before2_6_20: bool, before2_6_24: bool, before2_6_29: bool, before2_6_30: bool,
                     eventfdMissing: bool, timerfdMissing: bool, pipe2Missing: bool, statxMissing: bool,
                     getrandomMissing: bool, epollCreate1Missing: bool, prlimit64Missing: bool, ppollMissing: bool,
                     echoesNumber: bool, answeredClocks: set<U64>)

  /** What a step takes from outside the tracee: the timers' clocks, the two clocks a futex may
      wait by, when they answer, whether /proc lets the pipe be reopened, the emulated timer the
      call names, and the random source. */
  datatype Outside = Outside(clock: TimerFd.Clock, realtime: Option<Time>, monotonic: Option<Time>, reopened: bool,
                             timer: Option<TimerFd.Timer>, urandom: bool, random: seq<Byte>)

  /** An entry stop as `begin` leaves it: taken over when there is an emulation. */
  datatype Begun = Begun(active: Option<Active>, regs: Regs, mem: Memory, sequence: nat)

  function Bit(x: nat, bit: nat): bool
    requires bit > 0
  {
    x / bit % 2 == 1
  }

  /** Where to enter the kernel from again: just behind the tracee, in either encoding. */
  function GadgetFor(mem: Memory, regs: Regs): Option<U64> {
    var address := WrappingSub(regs.rip, 2);
    var enters := AtSyscall(mem, address) || AtInterrupt(mem, address);
    if PeekWord(mem, address).Some? && enters then Some(address) else None
  }

  function NotTaken(regs: Regs, mem: Memory, sequence: nat): Begun { Begun(None, regs, mem, sequence) }

  function StartSequence(regs: Regs, mem: Memory, sequence: nat, gadget: U64, queue: seq<Step>, outcome: Outcome,
                         clockid: int): Begun
    requires queue != []
  {
    Begun(Some(Started(regs, gadget, queue, outcome, clockid)), StartedRegs(regs, queue), mem, sequence)
  }

  function StandIn(regs: Regs, mem: Memory, sequence: nat, result: I64): Begun {
    Begun(Some(Fixup(result)), regs.(origRax := SYS_GETPID, rax := SYS_GETPID), mem, sequence)
  }

  /** rt_sigprocmask, epoll_wait and rt_sigprocmask again. */
  function EpollQueue(regs: Regs): seq<Step> {
    [Sigprocmask(regs.r8, Scratch(regs.rsp), false),
     EpollWait(regs.rdi, regs.rsi, regs.rdx, regs.r10),
     Sigprocmask(Scratch(regs.rsp), 0, true)]
  }

  function EpollPwait(env: Env, sequence: nat, regs: Regs, mem: Memory): Begun {
    var gadget := GadgetFor(mem, regs);
    if !env.before2_6_19 || gadget.None? then NotTaken(regs, mem, sequence)
    else StartSequence(regs, mem, sequence, gadget.value, EpollQueue(regs), Call(1), 0)
  }

  /** lseek, and the transfer without an offset. */
  function TransferQueue(regs: Regs, write: bool): seq<Step> {
    [Lseek(regs.rdi, Signed(regs.r10)), VectorIo(write, regs.rdi, regs.rsi, regs.rdx)]
  }

  function VectorTransfer(env: Env, sequence: nat, regs: Regs, mem: Memory, write: bool): Begun {
    var gadget := GadgetFor(mem, regs);
    if !env.before2_6_30 || gadget.None? then NotTaken(regs, mem, sequence)
    else
      StartSequence(regs, mem, sequence, gadget.value, TransferQueue(regs, write), Call(1), 0)
  }

  /** F_DUPFD, and FD_CLOEXEC on what it gives. */
  function DupfdQueue(regs: Regs): seq<Step> {
    [FcntlDupfd(regs.rdi, regs.rdx), FcntlCloexec(Result)]
  }

  function DupfdCloexec(env: Env, sequence: nat, regs: Regs, mem: Memory): Begun {
    var gadget := GadgetFor(mem, regs);
    if regs.rsi != F_DUPFD_CLOEXEC || !env.before2_6_24 || gadget.None? then NotTaken(regs, mem, sequence)
    else
      StartSequence(regs, mem, sequence, gadget.value, DupfdQueue(regs), Call(0), 0)
  }

  /** ASCII decimal digits. */
  function Decimal(n: nat): (r: seq<Byte>)
    ensures r != []
  {
    if n < 10 then [48 + n] else Decimal(n / 10) + [48 + n % 10]
  }

  /** "sharun-efd-" */
  const PREFIX: seq<Byte> := [115, 104, 97, 114, 117, 110, 45, 101, 102, 100, 45]
  const DASH: Byte := 45

  function AddressName(pid: Pid, sequence: nat): seq<Byte> {
    PREFIX + Decimal(pid) + [DASH] + Decimal(sequence)
  }

  /** An abstract sockaddr_un: the family, a leading NUL, and the name. */
  function SocketAddress(pid: Pid, sequence: nat): seq<Byte> {
    [1, 0, 0] + AddressName(pid, sequence)
  }

  /** Digits without the dash. */
  predicate Digits(s: seq<Byte>) { forall c <- s :: 48 <= c < 58 }

  lemma {:induction false} DecimalIsDigits(n: nat)
    ensures Digits(Decimal(n))
  {
    if n >= 10 {
      DecimalIsDigits(n / 10);
    }
  }

  lemma {:induction false} DecimalInjective(m: nat, n: nat)
    requires Decimal(m) == Decimal(n)
    ensures m == n
  {
    var s := Decimal(m);
    if m >= 10 && n >= 10 {
      assert s[..|s| - 1] == Decimal(m / 10) && s[..|s| - 1] == Decimal(n / 10);
      DecimalInjective(m / 10, n / 10);
    }
    assert s[|s| - 1] == 48 + m % 10 && s[|s| - 1] == 48 + n % 10;
  }

  /** The names of successive eventfds are apart. */
  lemma NamesApart(pid: Pid, i: nat, pid': Pid, j: nat)
    requires AddressName(pid, i) == AddressName(pid', j)
    ensures pid == pid' && i == j
  {
    var a, b, a', b' := Decimal(pid), Decimal(i), Decimal(pid'), Decimal(j);
    DecimalIsDigits(pid);
    DecimalIsDigits(pid');
    var s := AddressName(pid, i);
    assert s[11..] == a + [DASH] + b && s[11..] == a' + [DASH] + b';
    SplitAtDash(a, b, a', b');
    DecimalInjective(pid, pid');
    DecimalInjective(i, j);
  }

  lemma DigitAt(s: seq<Byte>, i: nat)
    requires Digits(s) && i < |s|
    ensures s[i] != DASH
  {
    assert s[i] in s;
  }

  lemma NoLonger(a: seq<Byte>, b: seq<Byte>, a': seq<Byte>, b': seq<Byte>)
    requires Digits(a') && a + [DASH] + b == a' + [DASH] + b'
    ensures |a'| <= |a|
  {
    assert (a + [DASH] + b)[|a|] == DASH;
    if |a| < |a'| {
      assert (a' + [DASH] + b')[|a|] == a'[|a|];
      DigitAt(a', |a|);
    }
  }

  lemma SplitAtDash(a: seq<Byte>, b: seq<Byte>, a': seq<Byte>, b': seq<Byte>)
    requires Digits(a) && Digits(a') && a + [DASH] + b == a' + [DASH] + b'
    ensures a == a' && b == b'
  {
    NoLonger(a, b, a', b');
    NoLonger(a', b', a, b);
    var s := a + [DASH] + b;
    assert s[..|a|] == a && s[..|a'|] == a' && s[|a| + 1..] == b && s[|a'| + 1..] == b';
  }

  function EventfdQueue(scratch: U64, length: U64, flags: U64, initial: U64): seq<Step> {
    [Socket, Attach(Result, scratch, length, false), Attach(Result, scratch, length, true)]
    + (if Bit(flags, EFD_NONBLOCK) then [Nonblock(Result)] else [])
    + (if initial != 0 then [WriteInitial(Result, (scratch + 256) % TWO64)] else [])
  }

  /** The socket's address, and the initial value when there is one, below the stack. */
  function EventfdBuffers(pid: Pid, sequence: nat, regs: Regs, mem: Memory): (bool, Memory) {
    var scratch := Scratch(regs.rsp);
    var (ok, mem') := WriteSpec(mem, scratch, SocketAddress(pid, sequence));
    if !ok || regs.rdi == 0 then (ok, mem') else WriteSpec(mem', (scratch + 256) % TWO64, ToBytes(regs.rdi, 8))
  }

  /** What is read from an emulated eventfd is what was written to it: the socket is its own
      peer. An initial value above 32 bits is left to the kernel. */
  function Eventfd(env: Env, pid: Pid, sequence: nat, regs: Regs, mem: Memory): Begun {
    var gadget := GadgetFor(mem, regs);
    if !env.eventfdMissing || regs.rdi > 0xffff_ffff || gadget.None? then NotTaken(regs, mem, sequence)
    else
      var (ok, mem') := EventfdBuffers(pid, sequence, regs, mem);
      if !ok then NotTaken(regs, mem', sequence + 1)
      else
        var length := |SocketAddress(pid, sequence)| % TWO64;
        var queue := EventfdQueue(Scratch(regs.rsp), length, regs.rsi, regs.rdi);
        StartSequence(regs, mem', sequence + 1, gadget.value, queue, Call(0), 0)
  }

  /** `as i32` */
  function AsI32(x: U64): int {
    var low := x % 0x1_0000_0000;
    if low < 0x8000_0000 then low else low - 0x1_0000_0000
  }

  const CLOCK_REALTIME: U64 := 0
  const CLOCK_MONOTONIC: U64 := 1
  const CLOCK_MONOTONIC_RAW: U64 := 4
  const CLOCK_REALTIME_COARSE: U64 := 5
  const CLOCK_MONOTONIC_COARSE: U64 := 6
  const CLOCK_BOOTTIME: U64 := 7

  /** A newer clock that this kernel does not answer is replaced by the old one it is a form of. */
  function ReplacedClock(env: Env, id: U64): U64 {
    if id in env.answeredClocks then id
    else if id == CLOCK_REALTIME_COARSE then CLOCK_REALTIME
    else if id in {CLOCK_MONOTONIC_RAW, CLOCK_MONOTONIC_COARSE, CLOCK_BOOTTIME} then CLOCK_MONOTONIC
    else id
  }

  function TimerfdQueue(regs: Regs): seq<Step> {
    [Pipe(Scratch(regs.rsp)), Close(WriteEnd)] + (if Bit(regs.rsi, TFD_NONBLOCK) then [Nonblock(ReadEnd)] else [])
  }

  /** An emulated timerfd is the read end of a pipe. The tracee's write end is closed again by
      the sequence itself. */
  function TimerfdCreate(env: Env, sequence: nat, regs: Regs, mem: Memory): Begun {
    var gadget := GadgetFor(mem, regs);
    if !env.timerfdMissing || gadget.None? then NotTaken(regs, mem, sequence)
    else
      StartSequence(regs, mem, sequence, gadget.value, TimerfdQueue(regs), Adopted, AsI32(ReplacedClock(env, regs.rdi)))
  }

  function Wrapped(x: int): U64 { x % TWO64 }

  function I64Bytes(x: int): seq<Byte> { ToBytes(Wrapped(x), 8) }

  function TimeBytes(t: Time): seq<Byte> { I64Bytes(t.seconds) + I64Bytes(t.nanoseconds) }

  function ReadTime(bytes: seq<Byte>, at: nat): Time
    requires at + 16 <= |bytes|
  {
    Time(ReadI64(bytes[at..at + 8]), ReadI64(bytes[at + 8..at + 16]))
  }

  /** What is left of a timer's deadline. */
  function TimeLeft(t: TimerFd.Timer, now: Time): Time {
    if t.deadline.None? then ZERO else Sub(t.deadline.value, now)
  }

  /** The time by a timer's clock, or none at all. */
  function Reading(t: TimerFd.Timer, clock: TimerFd.Clock): Time {
    if t.clockid in clock.known then clock.now else ZERO
  }

  /** struct itimerspec of a timer as it stands. */
  function CurrentSetting(t: TimerFd.Timer, now: Time): seq<Byte> {
    TimeBytes(t.interval) + TimeBytes(TimeLeft(t, now))
  }

  /** The setting before this one, written where r10 points, unless that is null. */
  function OldReported(at: U64, mem: Memory, t: TimerFd.Timer, clock: TimerFd.Clock): (bool, Memory) {
    if at == 0 then (true, mem) else WriteSpec(mem, at, CurrentSetting(t, Reading(t, clock)))
  }

  /** The bookkeeping half happens in the timers; here the old value is reported and the call
      replaced. */
  function TimerfdSettime(sequence: nat, regs: Regs, mem: Memory, out: Outside): Begun {
    if out.timer.None? || ReadSpec(mem, regs.rdx, 32).None? then NotTaken(regs, mem, sequence)
    else
      var (ok, mem') := OldReported(regs.r10, mem, out.timer.value, out.clock);
      if ok && CanSet(regs, mem, out) then StandIn(regs, mem', sequence, 0) else NotTaken(regs, mem', sequence)
  }

  predicate CanSet(regs: Regs, mem: Memory, out: Outside)
    requires out.timer.Some? && ReadSpec(mem, regs.rdx, 32).Some?
  {
    var requested := ReadSpec(mem, regs.rdx, 32).value;
    TimerFd.Settable(out.timer.value, Bit(regs.rsi, 1), ReadTime(requested, 16), out.clock)
  }

  function TimerfdGettime(sequence: nat, regs: Regs, mem: Memory, out: Outside): Begun {
    if out.timer.None? then NotTaken(regs, mem, sequence)
    else
      var (ok, mem') := WriteSpec(mem, regs.rsi, CurrentSetting(out.timer.value, Reading(out.timer.value, out.clock)));
      if ok then StandIn(regs, mem', sequence, 0) else NotTaken(regs, mem', sequence)
  }

  /** The dispatch on the call's number; an exit, or a 32-bit tracee, is never taken over. */
  function Begin(env: Env, pid: Pid, sequence: nat, regs: Regs, mem: Memory, entering: bool, out: Outside): Begun {
    if !entering || regs.cs != CS_64 then NotTaken(regs, mem, sequence)
    else if regs.origRax == SYS_EVENTFD || regs.origRax == SYS_EVENTFD2 then Eventfd(env, pid, sequence, regs, mem)
    else if regs.origRax == SYS_TIMERFD_CREATE then TimerfdCreate(env, sequence, regs, mem)
    else if regs.origRax == SYS_TIMERFD_SETTIME then TimerfdSettime(sequence, regs, mem, out)
    else if regs.origRax == SYS_TIMERFD_GETTIME then TimerfdGettime(sequence, regs, mem, out)
    else if regs.origRax == SYS_FCNTL then DupfdCloexec(env, sequence, regs, mem)
    else if regs.origRax == SYS_PWRITEV then VectorTransfer(env, sequence, regs, mem, true)
    else if regs.origRax == SYS_PREADV then VectorTransfer(env, sequence, regs, mem, false)
    else if regs.origRax == SYS_EPOLL_PWAIT then EpollPwait(env, sequence, regs, mem)
    else NotTaken(regs, mem, sequence)
  }

  /** At an exit the dispatch changes nothing. */
  lemma ExitIsLeftAlone(env: Env, pid: Pid, sequence: nat, regs: Regs, mem: Memory, out: Outside)
    ensures Begin(env, pid, sequence, regs, mem, false, out) == NotTaken(regs, mem, sequence)
  {
  }

  /** What a step does to the emulated timers. */
  datatype TimerOp =
    | NoOp
    | CloseFd(fd: int)
    | SetFd(fd: int, abstime: bool, interval: Time, value: Time)
    | CreateFd(fd: int, clockid: int)

  function SettimeOp(sequence: nat, regs: Regs, mem: Memory, out: Outside): TimerOp {
    if TimerfdSettime(sequence, regs, mem, out).active.None? then NoOp
    else SetOp(regs, ReadSpec(mem, regs.rdx, 32).value)
  }

  function SetOp(regs: Regs, requested: seq<Byte>): TimerOp
    requires |requested| == 32
  {
    SetFd(Signed(regs.rdi), Bit(regs.rsi, 1), ReadTime(requested, 0), ReadTime(requested, 16))
  }

  function BeginTimerOp(env: Env, sequence: nat, regs: Regs, mem: Memory, entering: bool, out: Outside): TimerOp {
    if !entering || regs.cs != CS_64 then NoOp
    else if regs.origRax == SYS_CLOSE then CloseFd(Signed(regs.rdi))
    else if regs.origRax == SYS_TIMERFD_SETTIME then SettimeOp(sequence, regs, mem, out)
    else NoOp
  }

  /** A captured pipe becomes a disarmed timer. */
  function CaptureOp(active: Active, captured: Option<(I64, I64)>): TimerOp {
    if captured.Some? && active.Sequence? then CreateFd(captured.value.0, active.clockid) else NoOp
  }

  ghost predicate TimerOpDone(s: TimerFd.State, s': TimerFd.State, op: TimerOp, clock: TimerFd.Clock) {
    match op
    case NoOp => s' == s
    case CloseFd(fd) => s' == s.(timers := s.timers - {fd}, writeEnds := s.writeEnds - {fd})
    case SetFd(fd, abstime, interval, value) =>
      && fd in s.timers && TimerFd.Settable(s.timers[fd], abstime, value, clock)
      && var deadline := TimerFd.DeadlineFor(abstime, value, clock.now);
      && s'.timers == s.timers[fd := TimerFd.Timer(s.timers[fd].clockid, deadline, interval)]
      && s'.writeEnds == s.writeEnds && s'.alarm == s.alarm && s'.handlers == s.handlers
      && TimerFd.ArmedFor(s'.timers, clock, s'.itimer)
    case CreateFd(fd, clockid) =>
      s' == s.(timers := s.timers[fd := TimerFd.Timer(clockid, None, ZERO)], writeEnds := s.writeEnds + {fd},
               handlers := true)
  }

  /** The timer an fd names. */
  function TimerNamed(timers: map<int, TimerFd.Timer>, fd: int): Option<TimerFd.Timer> {
    if fd in timers then Some(timers[fd]) else None
  }

  /** What is left of a relative setting is, at any later reading of the clock, less by the time
      that has passed, down to nothing; right after it is what was set. */
  lemma TimeLeftAfterSetting(clockid: int, interval: Time, value: Time, now: Time, later: Time)
    requires value != ZERO
    ensures var t := TimerFd.Timer(clockid, TimerFd.DeadlineFor(false, value, now), interval);
            && t.deadline == Some(Add(now, value))
            && Nanos(TimeLeft(t, later))
               == (if HasPassed(t.deadline.value, later) then 0 else Nanos(value) - (Nanos(later) - Nanos(now)))
            && (Valid(value) && Valid(now) ==> TimeLeft(t, now) == value)
            && (Valid(value) && Valid(now) && Valid(later) ==>
                  (HasPassed(t.deadline.value, later) <==> Nanos(value) < Nanos(later) - Nanos(now)))
  {
    AddKeepsNanos(now, value);
    SubKeepsNanos(Add(now, value), later);
    if Valid(value) && Valid(now) {
      SubUndoesAdd(now, value);
      AddIsNanos(now, value);
      if Valid(later) {
        SubIsNanos(Add(now, value), later);
      }
    }
  }

  lemma I64BytesRoundTrip(x: int)
    requires -TWO63 <= x < TWO63
    ensures |I64Bytes(x)| == 8 && ReadI64(I64Bytes(x)) == x
  {
    I64RoundTrip(x);
    assert Unsigned(x) == Wrapped(x);
    assert I64Bytes(x) == ToBytes(Unsigned(x), 8);
  }

  /** Both parts fit 64 bits. */
  predicate Fits(t: Time) { -TWO63 <= t.seconds < TWO63 && -TWO63 <= t.nanoseconds < TWO63 }

  lemma TimeRoundTrip(t: Time)
    requires Fits(t)
    ensures |TimeBytes(t)| == 16 && ReadTime(TimeBytes(t), 0) == t
  {
    I64BytesRoundTrip(t.seconds);
    I64BytesRoundTrip(t.nanoseconds);
    Halves(I64Bytes(t.seconds), I64Bytes(t.nanoseconds));
  }

  lemma Halves(a: seq<Byte>, b: seq<Byte>)
    requires |a| == 8 && |b| == 8
    ensures (a + b)[0..0 + 8] == a && (a + b)[0 + 8..0 + 16] == b
  {
  }

  lemma ReadTimes(a: seq<Byte>, b: seq<Byte>)
    requires |a| == 16 && |b| == 16
    ensures ReadTime(a + b, 0) == ReadTime(a, 0) && ReadTime(a + b, 16) == ReadTime(b, 0)
  {
    var s := a + b;
    assert s[0..0 + 8] == a[0..0 + 8] && s[0 + 8..0 + 16] == a[0 + 8..0 + 16];
    assert s[16..16 + 8] == b[0..0 + 8] && s[16 + 8..16 + 16] == b[0 + 8..0 + 16];
  }

  /** What settime reports, gettime reads back. */
  lemma SettingRoundTrip(t: TimerFd.Timer, now: Time)
    requires Fits(t.interval) && Fits(TimeLeft(t, now))
    ensures |CurrentSetting(t, now)| == 32
    ensures ReadTime(CurrentSetting(t, now), 0) == t.interval
    ensures ReadTime(CurrentSetting(t, now), 16) == TimeLeft(t, now)
  {
    TimeRoundTrip(t.interval);
    TimeRoundTrip(TimeLeft(t, now));
    ReadTimes(TimeBytes(t.interval), TimeBytes(TimeLeft(t, now)));
  }

  /** A sequence for a new fd answers with it even when a later call failed: the answer is an
      error exactly when the first call's was. */
  lemma CreatedFdIsAnswer(a: Active)
    requires a.Sequence? && a.outcome == Call(0) && a.results != []
    ensures a.results[0] >= 0 ==> Answer(a) == a.results[0]
    ensures Answer(a) < 0 <==> a.results[0] < 0
  {
    FirstErrorMeaning(a.results);
  }

  /** The timerfd_create sequence as its pipe call runs. */
  function PipeRunning(regs: Regs, gadget: U64, clockid: int): Active {
    Started(regs, gadget, TimerfdQueue(regs), Adopted, clockid)
  }

  /** The two numbers in scratch memory are looked at whether or not the pipe call wrote them.
      So the emulation that a failed one ends reports its error exactly when they cannot be
      read, when /proc has no such fd to reopen, or when the first of them is negative.
      Otherwise the application gets that number for its new timer. */
  lemma FailedPipeAnswer(regs: Regs, gadget: U64, clockid: int, exit: Regs, mem: Memory, reopened: bool)
    requires IsError(Signed(exit.rax))
    ensures var a := PipeRunning(regs, gadget, clockid);
            var m := Advance(a, exit, PipeCapture(a, mem, reopened));
            var fds := PipeFds(mem, Scratch(regs.rsp));
            && m.active.None?
            && (m.regs == regs.(rax := exit.rax) <==> fds.None? || !reopened || fds.value.0 < 0)
            && (m.regs != regs.(rax := exit.rax) ==> m.regs == regs.(rax := fds.value.0))
  {
    hide PipeFds;
    var a, rc := PipeRunning(regs, gadget, clockid), Signed(exit.rax);
    var captured := PipeCapture(a, mem, reopened);
    var done := Collected(a, rc, captured);
    SignedUnsigned(rc, exit.rax);
    if captured.None? {
      assert done.results == [rc, -EIO] && [rc, -EIO][..1] == [rc] && rc in [rc];
    } else {
      assert done.results == [rc];
    }
  }

  /** So a failed pipe call hands out fd 0 when the scratch memory happens to be zero, as a
      fresh stack is, and /proc has an fd 0 to write to. */
  lemma FailedPipeIsFdZero(regs: Regs, gadget: U64, clockid: int, exit: Regs, mem: Memory)
    requires IsError(Signed(exit.rax))
    requires forall a :: Scratch(regs.rsp) <= a < Scratch(regs.rsp) + 8 ==> a in mem && mem[a] == 0
    ensures var a := PipeRunning(regs, gadget, clockid);
            Advance(a, exit, PipeCapture(a, mem, true)) == Moved(None, regs.(rax := 0))
  {
    var raw := ZeroScratch(mem, Scratch(regs.rsp));
    ZerosAreZero(raw[0..4]);
    FailedPipeAnswer(regs, gadget, clockid, exit, mem, true);
    assert Signed(0) != Signed(exit.rax);
  }

  lemma ZeroScratch(mem: Memory, at: U64) returns (raw: seq<Byte>)
    requires forall a :: at <= a < at + 8 ==> a in mem && mem[a] == 0
    ensures ReadSpec(mem, at, 8) == Some(raw) && |raw| == 8 && forall i :: 0 <= i < 8 ==> raw[i] == 0
  {
    assert WordCount(8) == 1;
    raw := Bytes(mem, at, 8);
  }

  lemma {:induction false} ZerosAreZero(bytes: seq<Byte>)
    requires forall i :: 0 <= i < |bytes| ==> bytes[i] == 0
    ensures FromBytes(bytes) == 0
  {
    if bytes != [] {
      ZerosAreZero(bytes[1..]);
    }
  }

  /** A pipe that was made is adopted: its write end is closed in the tracee, and its read
      end made non-blocking when asked for; or the emulation is over with an error. */
  lemma MadePipeAnswer(regs: Regs, gadget: U64, clockid: int, captured: Option<(I64, I64)>)
    ensures var done := Collected(Started(regs, gadget, TimerfdQueue(regs), Adopted, clockid), 0, captured);
            match captured
            case Some((r, w)) =>
              && done.fd == r && Remaining(done.queue, done.results) == done.queue
              && Build(done.queue[0], done.fd, done.readEnd, done.writeEnd)
                 == Request6(SYS_CLOSE, Unsigned(w), 0, 0, 0, 0, 0)
              && |done.queue| == (if Bit(regs.rsi, TFD_NONBLOCK) then 2 else 1)
              && (|done.queue| == 2 ==>
                    Build(done.queue[1], done.fd, done.readEnd, done.writeEnd)
                      == Request6(SYS_FCNTL, Unsigned(r), F_SETFL, O_NONBLOCK, 0, 0, 0))
            case None => Remaining(done.queue, done.results) == [] && Answer(done) == -EIO
  {
    var done := Collected(Started(regs, gadget, TimerfdQueue(regs), Adopted, clockid), 0, captured);
    if captured.None? {
      var results: seq<I64> := [0, -EIO];
      assert done.results == results && results[1..] == [-EIO] && results[..1] == [0];
      assert FirstError(results) == FirstError(results[1..]) == Some(-EIO);
      assert AllSucceeded(results[..1]);
      NoCleanup(done.queue);
    } else {
      assert done.results == [0] && [0][1..] == [];
    }
  }

  lemma {:induction false} NoCleanup(queue: seq<Step>)
    requires forall step <- queue :: !IsAlways(step)
    ensures SkipToCleanup(queue) == []
  {
    if queue != [] {
      NoCleanup(queue[1..]);
    }
  }

  lemma OneResult(rc: I64, other: I64)
    ensures FirstError([rc]) == (if IsError(rc) then Some(rc) else None)
    ensures !IsError(rc) ==> FirstError([rc, other]) == FirstError([other])
  {
    assert [rc][1..] == [] && [rc, other][1..] == [other];
  }

  /** A preadv or pwritev becomes a seek to its offset and a transfer of its vectors. When
      the seek fails nothing is transferred and its error is the answer; otherwise the
      transfer's result is. */
  lemma TransferAnswer(regs: Regs, gadget: U64, write: bool, rc0: I64, rc1: I64)
    requires rc0 >= 0 || IsError(rc0)
    requires rc1 >= 0 || IsError(rc1)
    ensures var queue := TransferQueue(regs, write);
            && StartedRegs(regs, queue) == Patched(regs, Request6(SYS_LSEEK, regs.rdi, regs.r10, 0, 0, 0, 0))
            && Build(queue[1], -1, -1, -1)
               == Request6(if write then SYS_WRITEV else SYS_READV, regs.rdi, regs.rsi, regs.rdx, 0, 0, 0)
            && var seeked := Collected(Started(regs, gadget, queue, Call(1), 0), rc0, None);
            && (rc0 < 0 ==> Remaining(seeked.queue, seeked.results) == [] && Answer(seeked) == rc0)
            && (rc0 >= 0 ==> Remaining(seeked.queue, seeked.results) == [queue[1]])
            && var moved := Collected(seeked.(queue := [], running := Some(queue[1]), atEntry := false), rc1, None);
            rc0 >= 0 ==> Remaining(moved.queue, moved.results) == [] && Answer(moved) == rc1
  {
    var queue := TransferQueue(regs, write);
    var seeked := Collected(Started(regs, gadget, queue, Call(1), 0), rc0, None);
    assert queue[1..] == [queue[1]] && [] + [rc0] == [rc0];
    OneResult(rc0, rc1);
    OneResult(rc1, rc1);
    SignedUnsigned(0, regs.r10);
    if rc0 >= 0 {
      var moved := Collected(seeked.(queue := [], running := Some(queue[1]), atEntry := false), rc1, None);
      assert moved.results == [rc0, rc1];
    }
  }

  /** F_DUPFD_CLOEXEC becomes F_DUPFD, and FD_CLOEXEC on the fd that gave. The answer is the
      first call's, and after its failure there is no second. */
  lemma DupfdAnswer(regs: Regs, gadget: U64, rc0: I64, rc1: I64)
    requires rc0 >= 0 || IsError(rc0)
    ensures var queue := DupfdQueue(regs);
            && StartedRegs(regs, queue) == Patched(regs, Request6(SYS_FCNTL, regs.rdi, F_DUPFD, regs.rdx, 0, 0, 0))
            && var dup := Collected(Started(regs, gadget, queue, Call(0), 0), rc0, None);
            && (rc0 < 0 ==> Remaining(dup.queue, dup.results) == [] && Answer(dup) == rc0)
            && (rc0 >= 0 ==>
                  && Remaining(dup.queue, dup.results) == [queue[1]]
                  && Build(queue[1], dup.fd, dup.readEnd, dup.writeEnd)
                     == Request6(SYS_FCNTL, Unsigned(rc0), F_SETFD, FD_CLOEXEC, 0, 0, 0)
                  && Answer(Collected(dup.(queue := [], running := Some(queue[1]), atEntry := false), rc1, None))
                     == rc0)
  {
    var queue := DupfdQueue(regs);
    assert queue[1..] == [queue[1]] && [] + [rc0] == [rc0];
    OneResult(rc0, rc1);
  }

  /** An eventfd's socket is bound and connected to one address, and that address and the
      initial value are both in memory when the sequence starts, beside each other. */
  lemma EventfdIsSelfConnected(pid: Pid, sequence: nat, regs: Regs, mem: Memory, fd: I64)
    requires EventfdBuffers(pid, sequence, regs, mem).0
    requires |SocketAddress(pid, sequence)| <= 248 && Scratch(regs.rsp) + 256 < TWO64
    ensures var address, scratch := SocketAddress(pid, sequence), Scratch(regs.rsp);
            var after := EventfdBuffers(pid, sequence, regs, mem).1;
            var queue := EventfdQueue(scratch, |address|, regs.rsi, regs.rdi);
            && Build(queue[1], fd, -1, -1) == Request6(SYS_BIND, Unsigned(fd), scratch, |address|, 0, 0, 0)
            && Build(queue[2], fd, -1, -1) == Request6(SYS_CONNECT, Unsigned(fd), scratch, |address|, 0, 0, 0)
            && ReadSpec(after, scratch, |address|) == Some(address)
            && (regs.rdi != 0 ==>
                  && Build(queue[|queue| - 1], fd, -1, -1)
                     == Request6(SYS_WRITE, Unsigned(fd), scratch + 256, 8, 0, 0, 0)
                  && ReadSpec(after, scratch + 256, 8) == Some(ToBytes(regs.rdi, 8)))
  {
    hide SocketAddress;
    hide Bytes;
    hide ReadSpec;
    hide WriteSpec;
    hide Overwrite;
    hide ToBytes;
    hide Patched;
    var address, scratch := SocketAddress(pid, sequence), Scratch(regs.rsp);
    WrittenIsRead(mem, scratch, address);
    if regs.rdi != 0 {
      var mem' := WriteSpec(mem, scratch, address).1;
      WrittenIsRead(mem', scratch + 256, ToBytes(regs.rdi, 8));
      ReadBesideWrite(mem', scratch + 256, ToBytes(regs.rdi, 8), scratch, |address|);
    }
  }

  lemma WrittenIsRead(mem: Memory, at: Address, bytes: seq<Byte>)
    requires WriteSpec(mem, at, bytes).0
    ensures WriteSpec(mem, at, bytes).1 == Overwrite(mem, at, bytes)
    ensures ReadSpec(WriteSpec(mem, at, bytes).1, at, |bytes|) == Some(bytes)
  {
    ReadAfterWrite(mem, at, bytes);
  }
}
